/** The question editor of the "add exam" panel page: an ordered list of
    multiple-choice questions, each with 3 to 5 answer options and a point
    value, whose points may add up to at most 150 XP. Every handler is a pure
    function from the current question list to the next one. */
module ExamEditor {
  import opened Wrappers
  import opened Sequences
  import opened Text

  const MaxQuestions: int := 10
  const MinOptions: int := 3
  const MaxOptions: int := 5
  const MaxTotalXp: int := 150
  /** Points a new question asks for before it is capped by the remaining budget. */
  const DefaultPoints: int := 10
  /** The lowest value the points input offers (`min="1"`). */
  const MinPoints: int := 1

  datatype AnswerOption = AnswerOption(id: string, text: string, isCorrect: bool)

  datatype Question = Question(id: string, text: string, options: seq<AnswerOption>, points: int)

  /** The fields of a question the page edits through `updateQuestion`. */
  datatype QuestionEdit =
    | EditText(text: string)
    | EditOptions(options: seq<AnswerOption>)
    | EditPoints(points: int)

  /** The fields of an option the page edits through `updateOption`. */
  datatype OptionEdit =
    | SetText(text: string)
    | SetCorrect(isCorrect: bool)

  // ---------------------------------------------------------------------------
  // Budget

  /** `totalXP`: the sum of all questions' points. */
  function Total(qs: seq<Question>): int {
    if qs == [] then 0 else qs[0].points + Total(qs[1..])
  }

  /** `remainingXP`: how much of the 150-point budget is still free. */
  function Remaining(qs: seq<Question>): int {
    MaxTotalXp - Total(qs)
  }

  lemma {:induction false} TotalConcat(a: seq<Question>, b: seq<Question>)
    ensures Total(a + b) == Total(a) + Total(b)
    decreases |a|
  {
    if a == [] {
      assert a + b == b;
    } else {
      assert (a + b)[0] == a[0];
      assert (a + b)[1..] == a[1..] + b;
      TotalConcat(a[1..], b);
    }
  }

  /** Two lists whose questions carry the same points position by position have the same total. */
  lemma {:induction false} TotalSamePoints(a: seq<Question>, b: seq<Question>)
    requires |a| == |b|
    requires forall i :: 0 <= i < |a| ==> a[i].points == b[i].points
    ensures Total(a) == Total(b)
    decreases |a|
  {
    if a != [] {
      TotalSamePoints(a[1..], b[1..]);
    }
  }

  /** The total splits around any position. */
  lemma TotalSplit(qs: seq<Question>, k: int)
    requires 0 <= k < |qs|
    ensures Total(qs) == Total(qs[..k]) + qs[k].points + Total(qs[k + 1..])
  {
    assert qs == qs[..k] + [qs[k]] + qs[k + 1..];
    TotalConcat(qs[..k] + [qs[k]], qs[k + 1..]);
    TotalConcat(qs[..k], [qs[k]]);
    assert Total([qs[k]]) == qs[k].points;
  }

  /** Replacing one question changes the total by the difference of their points. */
  lemma TotalReplace(qs: seq<Question>, k: int, q: Question)
    requires 0 <= k < |qs|
    ensures Total(qs[k := q]) == Total(qs) - qs[k].points + q.points
  {
    var r := qs[k := q];
    TotalSplit(qs, k);
    TotalSplit(r, k);
    assert r[..k] == qs[..k] && r[k + 1..] == qs[k + 1..];
  }

  /** Dropping questions with non-negative points never raises the total. */
  lemma {:induction false} TotalFilterLe(p: Question -> bool, qs: seq<Question>)
    requires forall i :: 0 <= i < |qs| ==> qs[i].points >= 0
    ensures Total(Filter(p, qs)) <= Total(qs)
    decreases |qs|
  {
    if qs != [] {
      TotalFilterLe(p, qs[1..]);
      TotalConcat(if p(qs[0]) then [qs[0]] else [], Filter(p, qs[1..]));
    }
  }

  // ---------------------------------------------------------------------------
  // Identity

  function DifferentIds(a: Question, b: Question): bool {
    a.id != b.id
  }

  function DifferentOptionIds(a: AnswerOption, b: AnswerOption): bool {
    a.id != b.id
  }

  /** No two questions share an id. */
  predicate UniqueIds(qs: seq<Question>) {
    Pairwise(DifferentIds, qs)
  }

  /** No two options of one question share an id. */
  predicate UniqueOptionIds(os: seq<AnswerOption>) {
    Pairwise(DifferentOptionIds, os)
  }

  /** Some question has this id. */
  predicate HasId(qs: seq<Question>, id: string) {
    exists i :: 0 <= i < |qs| && qs[i].id == id
  }

  /** Some option has this id. */
  predicate HasOptionId(os: seq<AnswerOption>, id: string) {
    exists j :: 0 <= j < |os| && os[j].id == id
  }

  /** `questions.find(q => q.id === id)`, as the position of the first match. */
  function FindIndex(qs: seq<Question>, id: string): (r: Option<nat>)
    ensures r.None? <==> !HasId(qs, id)
    ensures r.Some? ==> r.value < |qs| && qs[r.value].id == id
    ensures r.Some? ==> forall j :: 0 <= j < r.value ==> qs[j].id != id
    decreases |qs|
  {
    if qs == [] then None
    else if qs[0].id == id then Some(0)
    else match FindIndex(qs[1..], id)
      case None => None
      case Some(k) => Some(k + 1)
  }

  /** With unique ids, no other position holds the id of position `k`. */
  lemma OnlyAt(qs: seq<Question>, k: int)
    requires UniqueIds(qs)
    requires 0 <= k < |qs|
    ensures forall j :: 0 <= j < |qs| && j != k ==> qs[j].id != qs[k].id
  {
    forall j | 0 <= j < |qs| && j != k ensures qs[j].id != qs[k].id {
      if j < k { assert DifferentIds(qs[j], qs[k]); } else { assert DifferentIds(qs[k], qs[j]); }
    }
  }

  /** With unique ids, the question with a given id is the one at any position holding it. */
  lemma FindIndexUnique(qs: seq<Question>, k: int)
    requires UniqueIds(qs)
    requires 0 <= k < |qs|
    ensures FindIndex(qs, qs[k].id) == Some(k)
  {
    assert HasId(qs, qs[k].id);
    OnlyAt(qs, k);
  }

  // ---------------------------------------------------------------------------
  // The editor's invariant

  /** A question as the editor shapes it, whatever its points: 3 to 5 options
      with distinct ids. */
  predicate Shaped(q: Question) {
    && MinOptions <= |q.options| <= MaxOptions
    && UniqueOptionIds(q.options)
  }

  /** The bounds that do not involve points: at most 10 questions with distinct
      ids, each shaped. */
  predicate WellShaped(qs: seq<Question>) {
    && |qs| <= MaxQuestions
    && UniqueIds(qs)
    && (forall i :: 0 <= i < |qs| ==> Shaped(qs[i]))
  }

  /** The bounds on points: every question is worth at least the input's minimum
      of 1, and all together at most 150 XP. */
  predicate WithinBudget(qs: seq<Question>) {
    && (forall i :: 0 <= i < |qs| ==> qs[i].points >= MinPoints)
    && Total(qs) <= MaxTotalXp
  }

  /** Every bound the page sets. */
  predicate Valid(qs: seq<Question>) {
    WellShaped(qs) && WithinBudget(qs)
  }

  // ---------------------------------------------------------------------------
  // addQuestion

  /** The `index`-th option of a question created at clock reading `now`: its id
      is `"<now>-<index>"`, its text empty, and only the first one is correct. */
  function InitialOption(now: nat, index: nat): AnswerOption {
    AnswerOption(Stamp(now) + "-" + Stamp(index), "", index == 0)
  }

  /** A blank question created at clock reading `now` and worth `points`. */
  function NewQuestion(now: nat, points: int): (q: Question)
    ensures q.id == Stamp(now) && q.text == "" && q.points == points
    ensures |q.options| == MinOptions
    ensures forall j :: 0 <= j < |q.options| ==> q.options[j].text == ""
    ensures forall j :: 0 <= j < |q.options| ==> (q.options[j].isCorrect <==> j == 0)
    ensures UniqueOptionIds(q.options)
  {
    var options := seq(MinOptions, j requires 0 <= j => InitialOption(now, j));
    assert UniqueOptionIds(options) by {
      forall i, j | 0 <= i < j < |options| ensures DifferentOptionIds(options[i], options[j]) {
        var a := options[i].id;
        var b := options[j].id;
        assert a[|a| - 1] == Digit(i) && b[|b| - 1] == Digit(j);
      }
    }
    Question(Stamp(now), "", options, points)
  }

  /** Whether the "new question" button is disabled (and `addQuestion` returns early). */
  predicate AddDisabled(qs: seq<Question>) {
    |qs| >= MaxQuestions || Remaining(qs) <= 0
  }

  function Min(a: int, b: int): int {
    if a <= b then a else b
  }

  /** `addQuestion`: append a blank question worth 10 points, or whatever budget is left if less. */
  function AddQuestion(qs: seq<Question>, now: nat): (r: seq<Question>)
    ensures AddDisabled(qs) ==> r == qs
    ensures !AddDisabled(qs) ==> |r| == |qs| + 1 && r[..|qs|] == qs
    ensures !AddDisabled(qs) ==> r[|qs|] == NewQuestion(now, Min(DefaultPoints, Remaining(qs)))
    ensures !AddDisabled(qs) ==> MinPoints <= r[|qs|].points <= DefaultPoints
    ensures |qs| <= MaxQuestions ==> |r| <= MaxQuestions
    ensures Total(qs) <= MaxTotalXp ==> Total(r) <= MaxTotalXp
  {
    if |qs| >= MaxQuestions then qs
    else if Remaining(qs) <= 0 then qs
    else
      var q := NewQuestion(now, Min(DefaultPoints, Remaining(qs)));
      TotalConcat(qs, [q]);
      assert (qs + [q])[..|qs|] == qs;
      qs + [q]
  }

  // ---------------------------------------------------------------------------
  // removeQuestion

  /** The filter that keeps every question but those with `id`. */
  function Other(id: string): Question -> bool {
    (q: Question) => q.id != id
  }

  /** `removeQuestion`: drop the questions with `id`, keeping the rest in order. No minimum is enforced. */
  function RemoveQuestion(qs: seq<Question>, id: string): (r: seq<Question>)
    ensures forall i :: 0 <= i < |r| ==> r[i].id != id && r[i] in qs
    ensures forall i :: 0 <= i < |qs| && qs[i].id != id ==> qs[i] in r
    ensures IsSubsequence(r, qs)
  {
    FilterIsSubsequence(Other(id), qs);
    FilterMembers(Other(id), qs);
    Filter(Other(id), qs)
  }

  /** With unique ids, removing the question at position `k` leaves exactly the questions around it. */
  lemma RemoveQuestionAt(qs: seq<Question>, k: int)
    requires UniqueIds(qs)
    requires 0 <= k < |qs|
    ensures RemoveQuestion(qs, qs[k].id) == qs[..k] + qs[k + 1..]
  {
    OnlyAt(qs, k);
    FilterDropsOne(Other(qs[k].id), qs, k);
  }

  /** Removing an id nobody has leaves the list unchanged. */
  lemma RemoveQuestionAbsent(qs: seq<Question>, id: string)
    requires !HasId(qs, id)
    ensures RemoveQuestion(qs, id) == qs
  {
    FilterAll(Other(id), qs);
  }

  /** Removing the question just added restores the list it was added to. */
  lemma AddThenRemoveQuestion(qs: seq<Question>, now: nat)
    requires !AddDisabled(qs)
    requires !HasId(qs, Stamp(now))
    ensures RemoveQuestion(AddQuestion(qs, now), Stamp(now)) == qs
  {
    var q := NewQuestion(now, Min(DefaultPoints, Remaining(qs)));
    assert AddQuestion(qs, now) == qs + [q];
    FilterOutAppended(Other(Stamp(now)), qs, q);
  }

  // ---------------------------------------------------------------------------
  // updateQuestion

  /** The question with one field replaced (`{ ...q, [field]: value }`). */
  function ApplyEdit(q: Question, e: QuestionEdit): Question {
    match e
    case EditText(t) => q.(text := t)
    case EditOptions(os) => q.(options := os)
    case EditPoints(p) => q.(points := p)
  }

  /** `otherQuestionsXP`: the points of every question whose id is not `id`. */
  function OthersTotal(qs: seq<Question>, id: string): int {
    Total(Filter(Other(id), qs))
  }

  /** Apply `e` to every question with `id` (`questions.map(q => q.id === id ? ... : q)`). */
  function EditMatching(qs: seq<Question>, id: string, e: QuestionEdit): (r: seq<Question>)
    ensures |r| == |qs|
    ensures forall i :: 0 <= i < |qs| && qs[i].id != id ==> r[i] == qs[i]
    ensures forall i :: 0 <= i < |qs| && qs[i].id == id ==> r[i] == ApplyEdit(qs[i], e)
    ensures forall i :: 0 <= i < |qs| ==> r[i].id == qs[i].id
  {
    seq(|qs|, i requires 0 <= i < |qs| => if qs[i].id == id then ApplyEdit(qs[i], e) else qs[i])
  }

  /** The guard of `updateQuestion` exactly as written: a points edit is refused
      only when the other questions' points plus the new value pass 150. */
  predicate RejectedAsWritten(qs: seq<Question>, id: string, e: QuestionEdit) {
    e.EditPoints? && OthersTotal(qs, id) + e.points > MaxTotalXp
  }

  /** `updateQuestion` as written. */
  function UpdateQuestionAsWritten(qs: seq<Question>, id: string, e: QuestionEdit): (r: seq<Question>)
    ensures RejectedAsWritten(qs, id, e) ==> r == qs
    ensures |r| == |qs|
    ensures forall i :: 0 <= i < |qs| ==> r[i].id == qs[i].id
    ensures forall i :: 0 <= i < |qs| && qs[i].id != id ==> r[i] == qs[i]
    ensures !RejectedAsWritten(qs, id, e) ==>
      forall i :: 0 <= i < |qs| && qs[i].id == id ==> r[i] == ApplyEdit(qs[i], e)
  {
    if RejectedAsWritten(qs, id, e) then qs else EditMatching(qs, id, e)
  }

  /** The corrected guard: a points edit is also refused when the value is below
      the input's own minimum of 1, so that no question can carry negative points. */
  predicate Rejected(qs: seq<Question>, id: string, e: QuestionEdit) {
    e.EditPoints? && (e.points < MinPoints || OthersTotal(qs, id) + e.points > MaxTotalXp)
  }

  /** `updateQuestion`, with the corrected points guard. */
  function UpdateQuestion(qs: seq<Question>, id: string, e: QuestionEdit): (r: seq<Question>)
    ensures Rejected(qs, id, e) ==> r == qs
    ensures |r| == |qs|
    ensures forall i :: 0 <= i < |qs| ==> r[i].id == qs[i].id
    ensures forall i :: 0 <= i < |qs| && qs[i].id != id ==> r[i] == qs[i]
    ensures !Rejected(qs, id, e) ==>
      forall i :: 0 <= i < |qs| && qs[i].id == id ==> r[i] == ApplyEdit(qs[i], e)
  {
    if Rejected(qs, id, e) then qs else EditMatching(qs, id, e)
  }

  /** With unique ids, editing the question at `k` is a single-position replacement. */
  lemma EditMatchingAt(qs: seq<Question>, k: int, e: QuestionEdit)
    requires UniqueIds(qs)
    requires 0 <= k < |qs|
    ensures EditMatching(qs, qs[k].id, e) == qs[k := ApplyEdit(qs[k], e)]
  {
    OnlyAt(qs, k);
  }

  /** With unique ids, the other questions of question `k` are worth the total minus its own points. */
  lemma {:induction false} OthersTotalAt(qs: seq<Question>, k: int)
    requires UniqueIds(qs)
    requires 0 <= k < |qs|
    ensures OthersTotal(qs, qs[k].id) == Total(qs) - qs[k].points
  {
    RemoveQuestionAt(qs, k);
    TotalConcat(qs[..k], qs[k + 1..]);
    TotalSplit(qs, k);
  }

  /** The budget rule of a points edit: on a list with unique ids, setting the
      points of question `k` to `v` is accepted exactly when `v` is at least 1 and
      the other questions' points plus `v` stay within 150, and then the new total
      is precisely those other points plus `v`. */
  lemma {:induction false} UpdatePointsBudget(qs: seq<Question>, k: int, v: int)
    requires UniqueIds(qs)
    requires 0 <= k < |qs|
    ensures !Rejected(qs, qs[k].id, EditPoints(v)) <==> MinPoints <= v && Total(qs) - qs[k].points + v <= MaxTotalXp
    ensures !Rejected(qs, qs[k].id, EditPoints(v)) ==>
      Total(UpdateQuestion(qs, qs[k].id, EditPoints(v))) == Total(qs) - qs[k].points + v <= MaxTotalXp
  {
    OthersTotalAt(qs, k);
    if !Rejected(qs, qs[k].id, EditPoints(v)) {
      EditMatchingAt(qs, k, EditPoints(v));
      TotalReplace(qs, k, ApplyEdit(qs[k], EditPoints(v)));
    }
  }

  /** An edit of an id that no question has changes nothing, whether or not the
      guard refuses it; the "other questions" are then all of them. */
  lemma UpdateAbsentId(qs: seq<Question>, id: string, e: QuestionEdit)
    requires !HasId(qs, id)
    ensures EditMatching(qs, id, e) == qs
    ensures OthersTotal(qs, id) == Total(qs)
  {
    FilterAll(Other(id), qs);
  }

  // ---------------------------------------------------------------------------
  // addOption / removeOption

  /** `addOption`: if the question exists and has fewer than 5 options, append an
      empty, incorrect option whose id is the clock reading `now`. */
  function AddOption(qs: seq<Question>, qid: string, now: nat): (r: seq<Question>)
    ensures |r| == |qs|
    ensures forall i :: 0 <= i < |qs| ==> r[i].id == qs[i].id && r[i].points == qs[i].points && r[i].text == qs[i].text
    ensures !HasId(qs, qid) ==> r == qs
    ensures forall i :: 0 <= i < |qs| && qs[i].id != qid ==> r[i] == qs[i]
    ensures forall i :: 0 <= i < |qs| && qs[i].id == qid && |qs[i].options| < MaxOptions && FindIndex(qs, qid) == Some(i) ==>
      r[i].options == qs[i].options + [AnswerOption(Stamp(now), "", false)]
    ensures forall i :: 0 <= i < |qs| && FindIndex(qs, qid) == Some(i) && |qs[i].options| >= MaxOptions ==>
      r == qs
  {
    match FindIndex(qs, qid)
    case None => qs
    case Some(k) =>
      if |qs[k].options| >= MaxOptions then qs
      else
        var blank := AnswerOption(Stamp(now), "", false);
        seq(|qs|, i requires 0 <= i < |qs| =>
          if qs[i].id == qid then qs[i].(options := qs[i].options + [blank]) else qs[i])
  }

  /** The filter that keeps every option but those with `oid`. */
  function OtherOption(oid: string): AnswerOption -> bool {
    (o: AnswerOption) => o.id != oid
  }

  /** `removeOption`: if the question exists and has more than 3 options, drop its options with `oid`. */
  function RemoveOption(qs: seq<Question>, qid: string, oid: string): (r: seq<Question>)
    ensures |r| == |qs|
    ensures forall i :: 0 <= i < |qs| ==> r[i].id == qs[i].id && r[i].points == qs[i].points && r[i].text == qs[i].text
    ensures !HasId(qs, qid) ==> r == qs
    ensures forall i :: 0 <= i < |qs| && qs[i].id != qid ==> r[i] == qs[i]
    ensures forall i :: 0 <= i < |qs| && FindIndex(qs, qid) == Some(i) && |qs[i].options| > MinOptions ==>
      r[i].options == Filter(OtherOption(oid), qs[i].options)
    ensures forall i :: 0 <= i < |qs| && FindIndex(qs, qid) == Some(i) && |qs[i].options| <= MinOptions ==>
      r == qs
  {
    match FindIndex(qs, qid)
    case None => qs
    case Some(k) =>
      if |qs[k].options| <= MinOptions then qs
      else
        seq(|qs|, i requires 0 <= i < |qs| =>
          if qs[i].id == qid then qs[i].(options := Filter(OtherOption(oid), qs[i].options)) else qs[i])
  }

  /** With distinct option ids, removing one id removes at most one option. */
  lemma {:induction false} RemoveOneOption(os: seq<AnswerOption>, oid: string)
    requires UniqueOptionIds(os)
    ensures |Filter(OtherOption(oid), os)| >= |os| - 1
    ensures !HasOptionId(os, oid) ==> Filter(OtherOption(oid), os) == os
    decreases |os|
  {
    var p := OtherOption(oid);
    if os != [] {
      assert UniqueOptionIds(os[1..]) by {
        forall i, j | 0 <= i < j < |os[1..]| ensures DifferentOptionIds(os[1..][i], os[1..][j]) {
          assert os[1..][i] == os[i + 1] && os[1..][j] == os[j + 1];
        }
      }
      RemoveOneOption(os[1..], oid);
      assert HasOptionId(os[1..], oid) ==> HasOptionId(os, oid) by {
        if HasOptionId(os[1..], oid) {
          var j :| 0 <= j < |os[1..]| && os[1..][j].id == oid;
          assert os[j + 1].id == oid;
        }
      }
      if os[0].id == oid {
        forall j | 0 <= j < |os[1..]| ensures p(os[1..][j]) {
          assert DifferentOptionIds(os[0], os[j + 1]);
        }
        FilterAll(p, os[1..]);
      }
    }
  }

  /** Removing the option just added restores the list it was added to. */
  lemma AddThenRemoveOption(qs: seq<Question>, k: int, now: nat)
    requires WellShaped(qs)
    requires 0 <= k < |qs|
    requires |qs[k].options| < MaxOptions
    requires !HasOptionId(qs[k].options, Stamp(now))
    ensures RemoveOption(AddOption(qs, qs[k].id, now), qs[k].id, Stamp(now)) == qs
  {
    var qid := qs[k].id;
    var blank := AnswerOption(Stamp(now), "", false);
    FindIndexUnique(qs, k);
    var added := AddOption(qs, qid, now);
    assert added == qs[k := qs[k].(options := qs[k].options + [blank])] by {
      OnlyAt(qs, k);
    }
    assert UniqueIds(added) by {
      forall i, j | 0 <= i < j < |added| ensures DifferentIds(added[i], added[j]) {
        assert DifferentIds(qs[i], qs[j]);
      }
    }
    FindIndexUnique(added, k);
    assert |added[k].options| > MinOptions;
    var p := OtherOption(Stamp(now));
    forall j | 0 <= j < |qs[k].options| ensures p(qs[k].options[j]) {
      assert qs[k].options[j].id != Stamp(now);
    }
    FilterOutAppended(p, qs[k].options, blank);
    var removed := RemoveOption(added, qid, Stamp(now));
    assert removed[k] == qs[k];
    forall i | 0 <= i < |qs| ensures removed[i] == qs[i] {
    }
  }

  // ---------------------------------------------------------------------------
  // updateOption and choosing the correct option

  function ApplyOptionEdit(o: AnswerOption, e: OptionEdit): AnswerOption {
    match e
    case SetText(t) => o.(text := t)
    case SetCorrect(c) => o.(isCorrect := c)
  }

  /** `updateOption`: edit the options with `oid` of the questions with `qid`. No guard. */
  function UpdateOption(qs: seq<Question>, qid: string, oid: string, e: OptionEdit): (r: seq<Question>)
    ensures |r| == |qs|
    ensures forall i :: 0 <= i < |qs| && qs[i].id != qid ==> r[i] == qs[i]
    ensures forall i :: 0 <= i < |qs| ==>
      r[i].id == qs[i].id && r[i].text == qs[i].text && r[i].points == qs[i].points && |r[i].options| == |qs[i].options|
    ensures forall i, j :: 0 <= i < |qs| && 0 <= j < |qs[i].options| ==>
      r[i].options[j].id == qs[i].options[j].id
    ensures forall i, j :: 0 <= i < |qs| && 0 <= j < |qs[i].options| && qs[i].options[j].id != oid ==>
      r[i].options[j] == qs[i].options[j]
    ensures forall i, j :: 0 <= i < |qs| && qs[i].id == qid && 0 <= j < |qs[i].options| && qs[i].options[j].id == oid ==>
      r[i].options[j] == ApplyOptionEdit(qs[i].options[j], e)
    ensures !HasId(qs, qid) ==> r == qs
  {
    seq(|qs|, i requires 0 <= i < |qs| =>
      if qs[i].id == qid then
        qs[i].(options := seq(|qs[i].options|, j requires 0 <= j < |qs[i].options| =>
          if qs[i].options[j].id == oid then ApplyOptionEdit(qs[i].options[j], e) else qs[i].options[j]))
      else qs[i])
  }

  /** An option id that the question does not have leaves the list unchanged. */
  lemma UpdateOptionAbsent(qs: seq<Question>, qid: string, oid: string, e: OptionEdit)
    requires forall i :: 0 <= i < |qs| && qs[i].id == qid ==> !HasOptionId(qs[i].options, oid)
    ensures UpdateOption(qs, qid, oid, e) == qs
  {
    var r := UpdateOption(qs, qid, oid, e);
    forall i | 0 <= i < |qs| ensures r[i] == qs[i] {
      if qs[i].id == qid {
        assert r[i].options == qs[i].options;
      }
    }
  }

  /** The options with `isCorrect` set on the options with `oid` and cleared on all others. */
  function MarkOnly(os: seq<AnswerOption>, oid: string): (r: seq<AnswerOption>)
    ensures |r| == |os|
    ensures forall j :: 0 <= j < |os| ==> r[j].id == os[j].id && r[j].text == os[j].text
    ensures forall j :: 0 <= j < |os| ==> (r[j].isCorrect <==> os[j].id == oid)
  {
    seq(|os|, j requires 0 <= j < |os| => os[j].(isCorrect := os[j].id == oid))
  }

  /** Clicking the circle of option `oid` on the question rendered at position `k`
      (a call of `updateQuestion` with the re-marked options). */
  function SelectCorrect(qs: seq<Question>, k: int, oid: string): (r: seq<Question>)
    requires 0 <= k < |qs|
    ensures |r| == |qs|
    ensures forall i :: 0 <= i < |qs| && qs[i].id != qs[k].id ==> r[i] == qs[i]
    ensures forall i :: 0 <= i < |qs| && qs[i].id == qs[k].id ==>
      r[i] == qs[i].(options := MarkOnly(qs[k].options, oid))
  {
    UpdateQuestion(qs, qs[k].id, EditOptions(MarkOnly(qs[k].options, oid)))
  }

  /** Choosing option `oid` marks it correct and every other option of that question
      incorrect, keeping the options' number, ids and texts and every other question. */
  lemma SelectCorrectMarks(qs: seq<Question>, k: int, oid: string)
    requires UniqueIds(qs)
    requires 0 <= k < |qs|
    ensures var r := SelectCorrect(qs, k, oid);
      && (forall i :: 0 <= i < |qs| && i != k ==> r[i] == qs[i])
      && r[k].id == qs[k].id && r[k].text == qs[k].text && r[k].points == qs[k].points
      && |r[k].options| == |qs[k].options|
      && (forall j :: 0 <= j < |qs[k].options| ==>
            r[k].options[j].id == qs[k].options[j].id && r[k].options[j].text == qs[k].options[j].text
            && (r[k].options[j].isCorrect <==> qs[k].options[j].id == oid))
  {
    EditMatchingAt(qs, k, EditOptions(MarkOnly(qs[k].options, oid)));
  }

  /** When the option ids of the question are distinct and `oid` is one of them,
      exactly one option ends up correct. */
  lemma SelectCorrectExactlyOne(qs: seq<Question>, k: int, j: int)
    requires UniqueIds(qs)
    requires 0 <= k < |qs|
    requires UniqueOptionIds(qs[k].options)
    requires 0 <= j < |qs[k].options|
    ensures var os := SelectCorrect(qs, k, qs[k].options[j].id)[k].options;
      && os[j].isCorrect
      && forall m :: 0 <= m < |os| && m != j ==> !os[m].isCorrect
  {
    var oid := qs[k].options[j].id;
    SelectCorrectMarks(qs, k, oid);
    forall m | 0 <= m < |qs[k].options| && m != j ensures qs[k].options[m].id != oid {
      if m < j {
        assert DifferentOptionIds(qs[k].options[m], qs[k].options[j]);
      } else {
        assert DifferentOptionIds(qs[k].options[j], qs[k].options[m]);
      }
    }
  }

  // ---------------------------------------------------------------------------
  // Every handler keeps the invariant

  /** A question list whose `k`-th question is replaced by one with the same id. */
  lemma ReplaceKeepsUniqueIds(qs: seq<Question>, k: int, q: Question)
    requires UniqueIds(qs)
    requires 0 <= k < |qs| && q.id == qs[k].id
    ensures UniqueIds(qs[k := q])
  {
    var r := qs[k := q];
    forall i, j | 0 <= i < j < |r| ensures DifferentIds(r[i], r[j]) {
      assert DifferentIds(qs[i], qs[j]);
    }
  }

  /** A list carrying the same points position by position is as much within budget. */
  lemma SamePointsBudget(qs: seq<Question>, r: seq<Question>)
    requires WithinBudget(qs)
    requires |r| == |qs|
    requires forall i :: 0 <= i < |qs| ==> r[i].points == qs[i].points
    ensures WithinBudget(r)
  {
    TotalSamePoints(qs, r);
  }

  lemma AddQuestionKeepsShape(qs: seq<Question>, now: nat)
    requires WellShaped(qs)
    requires !HasId(qs, Stamp(now))
    ensures WellShaped(AddQuestion(qs, now))
  {
    if !AddDisabled(qs) {
      var r := AddQuestion(qs, now);
      assert r == qs + [r[|qs|]];
      forall i, j | 0 <= i < j < |r| ensures DifferentIds(r[i], r[j]) {
        if j < |qs| {
          assert DifferentIds(qs[i], qs[j]);
        } else {
          assert r[j].id == Stamp(now) && r[i] == qs[i];
        }
      }
    }
  }

  lemma AddQuestionKeepsValid(qs: seq<Question>, now: nat)
    requires Valid(qs)
    requires !HasId(qs, Stamp(now))
    ensures Valid(AddQuestion(qs, now))
  {
    AddQuestionKeepsShape(qs, now);
    if !AddDisabled(qs) {
      var r := AddQuestion(qs, now);
      assert r == qs + [r[|qs|]];
    }
  }

  lemma RemoveQuestionKeepsShape(qs: seq<Question>, id: string)
    requires WellShaped(qs)
    ensures WellShaped(RemoveQuestion(qs, id))
  {
    var r := RemoveQuestion(qs, id);
    FilterPairwise(Other(id), DifferentIds, qs);
    forall i | 0 <= i < |r| ensures Shaped(r[i]) {
      var m :| 0 <= m < |qs| && qs[m] == r[i];
    }
  }

  lemma RemoveQuestionKeepsValid(qs: seq<Question>, id: string)
    requires Valid(qs)
    ensures Valid(RemoveQuestion(qs, id))
  {
    var r := RemoveQuestion(qs, id);
    RemoveQuestionKeepsShape(qs, id);
    TotalFilterLe(Other(id), qs);
    forall i | 0 <= i < |r| ensures r[i].points >= MinPoints {
      var m :| 0 <= m < |qs| && qs[m] == r[i];
    }
  }

  /** An options edit keeps a question shaped when the new options are. */
  predicate EditKeepsShape(e: QuestionEdit) {
    e.EditOptions? ==> MinOptions <= |e.options| <= MaxOptions && UniqueOptionIds(e.options)
  }

  /** Under either guard, an edit of a question's text, points or (well-shaped)
      options keeps the bounds that do not involve points. */
  lemma UpdateQuestionKeepsShape(qs: seq<Question>, id: string, e: QuestionEdit)
    requires WellShaped(qs)
    requires EditKeepsShape(e)
    ensures WellShaped(UpdateQuestionAsWritten(qs, id, e))
    ensures WellShaped(UpdateQuestion(qs, id, e))
  {
    var r := EditMatching(qs, id, e);
    forall i, j | 0 <= i < j < |r| ensures DifferentIds(r[i], r[j]) {
      assert DifferentIds(qs[i], qs[j]);
    }
    forall i | 0 <= i < |r| ensures Shaped(r[i]) {
      assert Shaped(qs[i]);
    }
  }

  lemma UpdateQuestionKeepsValid(qs: seq<Question>, id: string, e: QuestionEdit)
    requires Valid(qs)
    requires EditKeepsShape(e)
    ensures Valid(UpdateQuestion(qs, id, e))
  {
    UpdateQuestionKeepsShape(qs, id, e);
    if !Rejected(qs, id, e) {
      match FindIndex(qs, id)
      case None =>
        UpdateAbsentId(qs, id, e);
      case Some(k) =>
        EditMatchingAt(qs, k, e);
        if e.EditPoints? {
          UpdatePointsBudget(qs, k, e.points);
        } else {
          TotalReplace(qs, k, ApplyEdit(qs[k], e));
        }
    }
  }

  lemma SelectCorrectKeepsShape(qs: seq<Question>, k: int, oid: string)
    requires WellShaped(qs)
    requires 0 <= k < |qs|
    ensures WellShaped(SelectCorrect(qs, k, oid))
  {
    var os := qs[k].options;
    var marked := MarkOnly(os, oid);
    assert UniqueOptionIds(marked) by {
      forall i, j | 0 <= i < j < |marked| ensures DifferentOptionIds(marked[i], marked[j]) {
        assert Shaped(qs[k]);
        assert DifferentOptionIds(os[i], os[j]);
      }
    }
    UpdateQuestionKeepsShape(qs, qs[k].id, EditOptions(marked));
  }

  lemma SelectCorrectKeepsValid(qs: seq<Question>, k: int, oid: string)
    requires Valid(qs)
    requires 0 <= k < |qs|
    ensures Valid(SelectCorrect(qs, k, oid))
  {
    SelectCorrectKeepsShape(qs, k, oid);
    SamePointsBudget(qs, SelectCorrect(qs, k, oid));
  }

  lemma AddOptionKeepsShape(qs: seq<Question>, qid: string, now: nat)
    requires WellShaped(qs)
    requires forall i :: 0 <= i < |qs| && qs[i].id == qid ==> !HasOptionId(qs[i].options, Stamp(now))
    ensures WellShaped(AddOption(qs, qid, now))
  {
    var r := AddOption(qs, qid, now);
    match FindIndex(qs, qid)
    case None =>
    case Some(k) =>
      if |qs[k].options| < MaxOptions {
        var blank := AnswerOption(Stamp(now), "", false);
        var q := qs[k].(options := qs[k].options + [blank]);
        assert r == qs[k := q] by {
          OnlyAt(qs, k);
        }
        assert UniqueOptionIds(q.options) by {
          forall i, j | 0 <= i < j < |q.options| ensures DifferentOptionIds(q.options[i], q.options[j]) {
            if j < |qs[k].options| {
              assert Shaped(qs[k]);
              assert DifferentOptionIds(qs[k].options[i], qs[k].options[j]);
            } else {
              assert q.options[i] == qs[k].options[i];
              assert q.options[j] == blank;
            }
          }
        }
        ReplaceKeepsUniqueIds(qs, k, q);
      }
  }

  lemma AddOptionKeepsValid(qs: seq<Question>, qid: string, now: nat)
    requires Valid(qs)
    requires forall i :: 0 <= i < |qs| && qs[i].id == qid ==> !HasOptionId(qs[i].options, Stamp(now))
    ensures Valid(AddOption(qs, qid, now))
  {
    AddOptionKeepsShape(qs, qid, now);
    SamePointsBudget(qs, AddOption(qs, qid, now));
  }

  lemma RemoveOptionKeepsShape(qs: seq<Question>, qid: string, oid: string)
    requires WellShaped(qs)
    ensures WellShaped(RemoveOption(qs, qid, oid))
  {
    var r := RemoveOption(qs, qid, oid);
    match FindIndex(qs, qid)
    case None =>
    case Some(k) =>
      if |qs[k].options| > MinOptions {
        var os := qs[k].options;
        var q := qs[k].(options := Filter(OtherOption(oid), os));
        assert r == qs[k := q] by {
          OnlyAt(qs, k);
        }
        assert Shaped(qs[k]);
        RemoveOneOption(os, oid);
        FilterPairwise(OtherOption(oid), DifferentOptionIds, os);
        ReplaceKeepsUniqueIds(qs, k, q);
      }
  }

  lemma RemoveOptionKeepsValid(qs: seq<Question>, qid: string, oid: string)
    requires Valid(qs)
    ensures Valid(RemoveOption(qs, qid, oid))
  {
    RemoveOptionKeepsShape(qs, qid, oid);
    SamePointsBudget(qs, RemoveOption(qs, qid, oid));
  }

  lemma UpdateOptionKeepsShape(qs: seq<Question>, qid: string, oid: string, e: OptionEdit)
    requires WellShaped(qs)
    ensures WellShaped(UpdateOption(qs, qid, oid, e))
  {
    var r := UpdateOption(qs, qid, oid, e);
    forall i, j | 0 <= i < j < |r| ensures DifferentIds(r[i], r[j]) {
      assert DifferentIds(qs[i], qs[j]);
    }
    forall i | 0 <= i < |r| ensures Shaped(r[i]) {
      assert Shaped(qs[i]);
      forall a, b | 0 <= a < b < |r[i].options| ensures DifferentOptionIds(r[i].options[a], r[i].options[b]) {
        assert DifferentOptionIds(qs[i].options[a], qs[i].options[b]);
      }
    }
  }

  lemma UpdateOptionKeepsValid(qs: seq<Question>, qid: string, oid: string, e: OptionEdit)
    requires Valid(qs)
    ensures Valid(UpdateOption(qs, qid, oid, e))
  {
    UpdateOptionKeepsShape(qs, qid, oid, e);
    SamePointsBudget(qs, UpdateOption(qs, qid, oid, e));
  }

  // ---------------------------------------------------------------------------
  // Sessions of edits

  /** One user action on the question editor. */
  datatype Action =
    | AddQuestionAt(now: nat)
    | RemoveQuestionWith(id: string)
    | AddOptionAt(qid: string, now: nat)
    | RemoveOptionWith(qid: string, oid: string)
    | EditQuestionText(id: string, text: string)
    | EditQuestionPoints(id: string, points: int)
    | EditOptionText(qid: string, oid: string, text: string)
    | ChooseCorrect(k: nat, oid: string)

  /** The points guard a session runs `updateQuestion` with: the page's own, or
      the corrected one that also refuses values below 1. */
  datatype Guard = AsWritten | Corrected

  /** `updateQuestion` under guard `g`. */
  function UpdateQuestionWith(g: Guard, qs: seq<Question>, id: string, e: QuestionEdit): seq<Question> {
    match g
    case AsWritten => UpdateQuestionAsWritten(qs, id, e)
    case Corrected => UpdateQuestion(qs, id, e)
  }

  /** The question list after one action. Choosing the correct option of a
      question that is not on screen does nothing; an options edit is never
      refused, so choosing the correct option acts the same under both guards. */
  function Step(g: Guard, qs: seq<Question>, a: Action): seq<Question> {
    match a
    case AddQuestionAt(now) => AddQuestion(qs, now)
    case RemoveQuestionWith(id) => RemoveQuestion(qs, id)
    case AddOptionAt(qid, now) => AddOption(qs, qid, now)
    case RemoveOptionWith(qid, oid) => RemoveOption(qs, qid, oid)
    case EditQuestionText(id, t) => UpdateQuestionWith(g, qs, id, EditText(t))
    case EditQuestionPoints(id, p) => UpdateQuestionWith(g, qs, id, EditPoints(p))
    case EditOptionText(qid, oid, t) => UpdateOption(qs, qid, oid, SetText(t))
    case ChooseCorrect(k, oid) => if k < |qs| then SelectCorrect(qs, k, oid) else qs
  }

  /** The clock readings an action uses are fresh: a new question's id is not in
      use, and a new option's id is not among its question's options. */
  predicate FreshClock(qs: seq<Question>, a: Action) {
    match a
    case AddQuestionAt(now) => !HasId(qs, Stamp(now))
    case AddOptionAt(qid, now) =>
      forall i :: 0 <= i < |qs| && qs[i].id == qid ==> !HasOptionId(qs[i].options, Stamp(now))
    case _ => true
  }

  /** The question list after a sequence of actions. */
  function Run(g: Guard, qs: seq<Question>, actions: seq<Action>): seq<Question>
    decreases |actions|
  {
    if actions == [] then qs else Run(g, Step(g, qs, actions[0]), actions[1..])
  }

  /** Every clock reading of the session is fresh when it is taken: the first
      action's on the starting list, the others' on the list the earlier
      actions left. */
  predicate FreshSession(g: Guard, qs: seq<Question>, actions: seq<Action>)
    decreases |actions|
  {
    actions == [] || (FreshClock(qs, actions[0]) && FreshSession(g, Step(g, qs, actions[0]), actions[1..]))
  }

  /** Every action with a fresh clock reading, under either guard, keeps the
      bounds that do not involve points. */
  lemma {:induction false} StepKeepsShape(g: Guard, qs: seq<Question>, a: Action)
    requires WellShaped(qs)
    requires FreshClock(qs, a)
    ensures WellShaped(Step(g, qs, a))
  {
    match a {
    case AddQuestionAt(now) => AddQuestionKeepsShape(qs, now);
    case RemoveQuestionWith(id) => RemoveQuestionKeepsShape(qs, id);
    case AddOptionAt(qid, now) => AddOptionKeepsShape(qs, qid, now);
    case RemoveOptionWith(qid, oid) => RemoveOptionKeepsShape(qs, qid, oid);
    case EditQuestionText(id, t) => UpdateQuestionKeepsShape(qs, id, EditText(t));
    case EditQuestionPoints(id, p) => UpdateQuestionKeepsShape(qs, id, EditPoints(p));
    case EditOptionText(qid, oid, t) => UpdateOptionKeepsShape(qs, qid, oid, SetText(t));
    case ChooseCorrect(k, oid) => if k < |qs| { SelectCorrectKeepsShape(qs, k, oid); }
    }
  }

  /** Every session with fresh clock readings, under either guard (the page's own
      included), keeps at most 10 questions with distinct ids, each with 3 to 5
      options with distinct ids. */
  lemma {:induction false} RunKeepsShape(g: Guard, qs: seq<Question>, actions: seq<Action>)
    requires WellShaped(qs)
    requires FreshSession(g, qs, actions)
    ensures WellShaped(Run(g, qs, actions))
    decreases |actions|
  {
    if actions != [] {
      StepKeepsShape(g, qs, actions[0]);
      RunKeepsShape(g, Step(g, qs, actions[0]), actions[1..]);
    }
  }

  /** Every action with a fresh clock reading, under the corrected guard, keeps every bound. */
  lemma {:induction false} StepKeepsValid(qs: seq<Question>, a: Action)
    requires Valid(qs)
    requires FreshClock(qs, a)
    ensures Valid(Step(Corrected, qs, a))
  {
    match a {
    case AddQuestionAt(now) => AddQuestionKeepsValid(qs, now);
    case RemoveQuestionWith(id) => RemoveQuestionKeepsValid(qs, id);
    case AddOptionAt(qid, now) => AddOptionKeepsValid(qs, qid, now);
    case RemoveOptionWith(qid, oid) => RemoveOptionKeepsValid(qs, qid, oid);
    case EditQuestionText(id, t) => UpdateQuestionKeepsValid(qs, id, EditText(t));
    case EditQuestionPoints(id, p) => UpdateQuestionKeepsValid(qs, id, EditPoints(p));
    case EditOptionText(qid, oid, t) => UpdateOptionKeepsValid(qs, qid, oid, SetText(t));
    case ChooseCorrect(k, oid) => if k < |qs| { SelectCorrectKeepsValid(qs, k, oid); }
    }
  }

  /** Every session with fresh clock readings, under the corrected guard, keeps
      every bound: at most 10 questions, 3 to 5 options each with distinct ids,
      every question worth at least 1 point and at most 150 XP in all. */
  lemma {:induction false} RunKeepsValid(qs: seq<Question>, actions: seq<Action>)
    requires Valid(qs)
    requires FreshSession(Corrected, qs, actions)
    ensures Valid(Run(Corrected, qs, actions))
    decreases |actions|
  {
    if actions != [] {
      StepKeepsValid(qs, actions[0]);
      RunKeepsValid(Step(Corrected, qs, actions[0]), actions[1..]);
    }
  }

  // ---------------------------------------------------------------------------
  // The guard as written lets the budget be exceeded

  /** Two fresh questions worth 10 points each (clock readings 1 and 2). */
  function TwoQuestions(): seq<Question> {
    AddQuestion(AddQuestion([], 1), 2)
  }

  lemma TwoQuestionsValid()
    ensures TwoQuestions() == [NewQuestion(1, DefaultPoints), NewQuestion(2, DefaultPoints)]
    ensures TwoQuestions()[0].id == "1" && TwoQuestions()[1].id == "2"
    ensures Valid(TwoQuestions()) && Total(TwoQuestions()) == 20
  {
    assert Stamp(1) == "1" && Stamp(2) == "2";
    var q1 := NewQuestion(1, DefaultPoints);
    assert Total([]) == 0;
    AddQuestionKeepsValid([], 1);
    assert AddQuestion([], 1) == [q1];
    assert Total([q1]) == 10;
    AddQuestionKeepsValid([q1], 2);
  }

  /** A points edit of question `k`, under the guard as written, on a list with
      unique ids: any value that keeps the others plus it within 150 is stored. */
  lemma {:induction false} AsWrittenPointsEdit(qs: seq<Question>, k: int, v: int)
    requires UniqueIds(qs)
    requires 0 <= k < |qs|
    requires Total(qs) - qs[k].points + v <= MaxTotalXp
    ensures var r := UpdateQuestionAsWritten(qs, qs[k].id, EditPoints(v));
      && r == qs[k := qs[k].(points := v)]
      && UniqueIds(r)
      && Total(r) == Total(qs) - qs[k].points + v
  {
    OthersTotalAt(qs, k);
    EditMatchingAt(qs, k, EditPoints(v));
    ReplaceKeepsUniqueIds(qs, k, qs[k].(points := v));
    TotalReplace(qs, k, qs[k].(points := v));
  }

  /** With the guard as written, a negative points value is accepted; raising the
      other question against it and then removing the negative one leaves a list
      worth 240 XP, past the 150-XP ceiling. The corrected guard refuses the first step. */
  lemma AsWrittenExceedsBudget()
    ensures var qs0 := TwoQuestions();
      var qs1 := UpdateQuestionAsWritten(qs0, "2", EditPoints(-100));
      var qs2 := UpdateQuestionAsWritten(qs1, "1", EditPoints(240));
      var qs3 := RemoveQuestion(qs2, "2");
      && Valid(qs0)
      && Total(qs3) == 240 > MaxTotalXp
      && UpdateQuestion(qs0, "2", EditPoints(-100)) == qs0
  {
    TwoQuestionsValid();
    var qs0 := TwoQuestions();
    AsWrittenPointsEdit(qs0, 1, -100);
    var qs1 := UpdateQuestionAsWritten(qs0, "2", EditPoints(-100));
    assert qs1[0] == qs0[0] && qs1[1].id == "2";
    AsWrittenPointsEdit(qs1, 0, 240);
    var qs2 := UpdateQuestionAsWritten(qs1, "1", EditPoints(240));
    assert Total(qs2) == 140 && qs2[1] == qs1[1];
    OthersTotalAt(qs2, 1);
  }

  /** A three-action session is its three steps in order. */
  lemma RunThree(g: Guard, qs: seq<Question>, a1: Action, a2: Action, a3: Action)
    ensures Run(g, qs, [a1, a2, a3]) == Step(g, Step(g, Step(g, qs, a1), a2), a3)
  {
    var q1 := Step(g, qs, a1);
    var q2 := Step(g, q1, a2);
    assert Run(g, q2, [a3]) == Step(g, q2, a3) by {
      assert [a3][1..] == [];
    }
    assert Run(g, q1, [a2, a3]) == Run(g, q2, [a3]) by {
      assert [a2, a3][1..] == [a3];
    }
    assert [a1, a2, a3][1..] == [a2, a3];
  }

  /** A session that reads no clock is trivially fresh. */
  lemma {:induction false} FreshWithoutClock(g: Guard, qs: seq<Question>, actions: seq<Action>)
    requires forall n :: 0 <= n < |actions| ==> !actions[n].AddQuestionAt? && !actions[n].AddOptionAt?
    ensures FreshSession(g, qs, actions)
    decreases |actions|
  {
    if actions != [] {
      FreshWithoutClock(g, Step(g, qs, actions[0]), actions[1..]);
    }
  }

  /** The three steps of `AsWrittenExceedsBudget`, as actions. */
  function ExceedingActions(): seq<Action> {
    [EditQuestionPoints("2", -100), EditQuestionPoints("1", 240), RemoveQuestionWith("2")]
  }

  /** Under the page's own guard, the session of `ExceedingActions` performs the
      three handler calls of `AsWrittenExceedsBudget`. */
  lemma ExceedingRun(qs: seq<Question>)
    ensures Run(AsWritten, qs, ExceedingActions()) ==
      RemoveQuestion(UpdateQuestionAsWritten(UpdateQuestionAsWritten(qs, "2", EditPoints(-100)), "1", EditPoints(240)), "2")
  {
    var a1, a2, a3 := EditQuestionPoints("2", -100), EditQuestionPoints("1", 240), RemoveQuestionWith("2");
    RunThree(AsWritten, qs, a1, a2, a3);
  }

  lemma ExceedingFresh(g: Guard, qs: seq<Question>)
    ensures FreshSession(g, qs, ExceedingActions())
  {
    FreshWithoutClock(g, qs, ExceedingActions());
  }

  /** The same three steps as a session under the page's own guard, from a valid
      list: the session keeps the shape bounds (as every session does) but ends
      outside the budget, so `RunKeepsValid` does not hold for the guard as written. */
  lemma AsWrittenSessionLeavesBudget()
    ensures Valid(TwoQuestions())
    ensures WellShaped(Run(AsWritten, TwoQuestions(), ExceedingActions()))
    ensures !WithinBudget(Run(AsWritten, TwoQuestions(), ExceedingActions()))
  {
    var qs0 := TwoQuestions();
    AsWrittenExceedsBudget();
    assert WellShaped(qs0);
    ExceedingRun(qs0);
    var end := Run(AsWritten, qs0, ExceedingActions());
    assert Total(end) == 240;
    ExceedingFresh(AsWritten, qs0);
    RunKeepsShape(AsWritten, qs0, ExceedingActions());
  }
}
