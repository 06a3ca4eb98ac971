/** The public exam catalogue page: the exam list narrowed by a search box and
    three selectors (category, difficulty, exam type), where the value "Tümü"
    ("all") disables a selector. */
module ExamCatalogue {
  import opened Sequences
  import opened Text

  /** The selectors' wildcard value, "Tümü". */
  const All: string := "T\U{00FC}m\U{00FC}"

  datatype Exam = Exam(id: int, category: string, title: string, slug: string, difficulty: string)

  /** The page's filter state: the search text and the three selector values. */
  datatype Criteria = Criteria(query: string, category: string, difficulty: string, examType: string)

  /** The filter state as the page mounts. */
  const Default: Criteria := Criteria("", All, All, All)

  /** Case-insensitive search: the lowercased query occurs in the lowercased title. */
  predicate MatchesSearch(e: Exam, query: string) {
    Contains(Lower(e.title), Lower(query))
  }

  /** A selector compared for equality with one field of the exam. */
  predicate MatchesSelector(field: string, selected: string) {
    selected == All || field == selected
  }

  /** The exam-type selector: a case-sensitive occurrence of the type in the title. */
  predicate MatchesType(e: Exam, examType: string) {
    examType == All || Contains(e.title, examType)
  }

  /** The predicate passed to `filter`. */
  predicate Matches(e: Exam, c: Criteria) {
    && MatchesSearch(e, c.query)
    && MatchesSelector(e.category, c.category)
    && MatchesSelector(e.difficulty, c.difficulty)
    && MatchesType(e, c.examType)
  }

  function Keep(c: Criteria): Exam -> bool {
    (e: Exam) => Matches(e, c)
  }

  /** `filteredExams`: the exams meeting all four conditions, in catalogue order. */
  function FilteredExams(exams: seq<Exam>, c: Criteria): (r: seq<Exam>)
    ensures forall i :: 0 <= i < |r| ==> r[i] in exams && Matches(r[i], c)
    ensures forall i :: 0 <= i < |exams| && Matches(exams[i], c) ==> exams[i] in r
    ensures IsSubsequence(r, exams)
  {
    FilterIsSubsequence(Keep(c), exams);
    FilterMembers(Keep(c), exams);
    Filter(Keep(c), exams)
  }

  /** Whether the "no exam matches your criteria" message is shown. */
  predicate NoResultsShown(exams: seq<Exam>, c: Criteria) {
    |FilteredExams(exams, c)| == 0
  }

  /** The message appears exactly when no exam meets the criteria. */
  lemma NoResultsExactly(exams: seq<Exam>, c: Criteria)
    ensures NoResultsShown(exams, c) <==> forall i :: 0 <= i < |exams| ==> !Matches(exams[i], c)
  {
    if !NoResultsShown(exams, c) {
      var r := FilteredExams(exams, c);
      assert r[0] in exams && Matches(r[0], c);
    }
  }

  /** Filtering never reorders: the result for a concatenation is the concatenation of the results. */
  lemma FilteredConcat(a: seq<Exam>, b: seq<Exam>, c: Criteria)
    ensures FilteredExams(a + b, c) == FilteredExams(a, c) + FilteredExams(b, c)
  {
    FilterConcat(Keep(c), a, b);
  }

  /** With an empty search and every selector on "Tümü", every exam is listed, in order. */
  lemma DefaultShowsAll(exams: seq<Exam>)
    ensures FilteredExams(exams, Default) == exams
  {
    forall i | 0 <= i < |exams| ensures Keep(Default)(exams[i]) {
      ContainsEmpty(Lower(exams[i].title));
      assert Lower("") == "";
    }
    FilterAll(Keep(Default), exams);
  }

  /** Filtering the filtered list again changes nothing. */
  lemma FilterTwice(exams: seq<Exam>, c: Criteria)
    ensures FilteredExams(FilteredExams(exams, c), c) == FilteredExams(exams, c)
  {
    FilterIdempotent(Keep(c), exams);
  }

  /** The search does not depend on the case in which the query is typed
      (as far as lowercasing is modelled). */
  lemma SearchIgnoresQueryCase(e: Exam, c: Criteria)
    ensures Matches(e, c.(query := Lower(c.query))) <==> Matches(e, c)
  {
    LowerIdempotent(c.query);
  }

  /** A category or difficulty other than "Tümü" keeps only exams whose field equals it exactly. */
  lemma SelectorsExact(exams: seq<Exam>, c: Criteria)
    ensures c.category != All ==> forall i :: 0 <= i < |FilteredExams(exams, c)| ==>
      FilteredExams(exams, c)[i].category == c.category
    ensures c.difficulty != All ==> forall i :: 0 <= i < |FilteredExams(exams, c)| ==>
      FilteredExams(exams, c)[i].difficulty == c.difficulty
  {
  }

  /** The type selector, unlike the search box, is case-sensitive: a title written
      in lower case is found by searching "TYT" but not by choosing the type "TYT". */
  lemma TypeIsCaseSensitive()
    ensures var e := Exam(1, "Matematik", "tyt", "tyt", "Orta");
      && Matches(e, Default.(query := "TYT"))
      && !Matches(e, Default.(examType := "TYT"))
  {
    var e := Exam(1, "Matematik", "tyt", "tyt", "Orta");
    assert Lower("TYT") == "tyt";
    assert Lower("tyt") == "tyt";
    assert OccursAt(Lower(e.title), Lower("TYT"), 0);
    ContainsEmpty(Lower(e.title));
    assert Lower("") == "";
    assert !Contains(e.title, "TYT") by {
      forall i | 0 <= i <= |e.title| ensures !OccursAt(e.title, "TYT", i) {
        if i == 0 {
          assert e.title[0..3][0] == 't';
        }
      }
    }
  }
}
