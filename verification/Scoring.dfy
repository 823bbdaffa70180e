/**
 `scoreAnswers` of `exam.service.ts`. Scores are kept in hundredths of a percent, the two decimals the source
 keeps; the quotient is exact and rounded half away from zero.
 */
module Scoring {
  import opened Wrappers
  import opened ExamData

  const PASSING_SCORE := 80

  datatype ScoreResult = ScoreResult(score: int, passed: bool, correctCount: nat, totalCount: nat)

  function Marks(q: Question): int {
    if q.marks.Some? then q.marks.value else 1
  }

  /** The answer names an option of the question, and the first such option is marked correct. */
  ghost predicate Correct(q: Question, answers: Answers) {
    && q.id in answers && answers[q.id] != ""
    && exists k :: 0 <= k < |q.options| && q.options[k].id == answers[q.id] && q.options[k].isCorrect
                   && forall j :: 0 <= j < k ==> q.options[j].id != answers[q.id]
  }

  ghost function Sum(qs: seq<Question>, f: Question -> int): int {
    if qs == [] then 0 else Sum(qs[..|qs| - 1], f) + f(qs[|qs| - 1])
  }

  ghost function Earning(answers: Answers): Question -> int {
    q => if Correct(q, answers) then Marks(q) else 0
  }

  ghost function Counting(answers: Answers): Question -> int {
    q => if Correct(q, answers) then 1 else 0
  }

  ghost function Total(qs: seq<Question>): int {
    Sum(qs, Marks)
  }

  ghost function Earned(qs: seq<Question>, answers: Answers): int {
    Sum(qs, Earning(answers))
  }

  /** The integer nearest to `num / den`, halves away from zero. */
  function Rounded(num: int, den: nat): int
    requires den > 0
  {
    if num >= 0 then (2 * num + den) / (2 * den) else -((2 * -num + den) / (2 * den))
  }

  ghost function ScoreOf(qs: seq<Question>, answers: Answers): int {
    if Total(qs) > 0 then Rounded(10_000 * Earned(qs, answers), Total(qs)) else 0
  }

  function Threshold(sheet: Sheet): int {
    if sheet.passingScore.Some? then sheet.passingScore.value else PASSING_SCORE
  }

  method FindChoice(options: seq<Choice>, id: string) returns (found: Option<Choice>)
    ensures found.Some? ==> exists k :: 0 <= k < |options| && options[k] == found.value && options[k].id == id
                                        && forall j :: 0 <= j < k ==> options[j].id != id
    ensures found.None? ==> forall j :: 0 <= j < |options| ==> options[j].id != id
  {
    for k := 0 to |options|
      invariant forall j :: 0 <= j < k ==> options[j].id != id
    {
      if options[k].id == id {
        return Some(options[k]);
      }
    }
    found := None;
  }

  /** The result that answers to an exam are due; an exam without questions, or that is gone, scores nothing. */
  ghost predicate Scores(exam: Option<Sheet>, answers: Answers, r: ScoreResult) {
    && (exam.None? || exam.value.questions == [] ==> r == ScoreResult(0, false, 0, 0))
    && (exam.Some? && exam.value.questions != [] ==>
          var qs := exam.value.questions;
          && r.score == ScoreOf(qs, answers)
          && (r.passed <==> r.score >= 100 * Threshold(exam.value))
          && r.correctCount == Sum(qs, Counting(answers))
          && r.totalCount == |qs|)
  }

  /** The loop of the source, against the sums it is meant to compute. */
  method ScoreAnswers(exam: Option<Sheet>, answers: Answers) returns (r: ScoreResult)
    ensures Scores(exam, answers, r)
  {
    if exam.None? || exam.value.questions == [] {
      return ScoreResult(0, false, 0, 0);
    }
    var qs := exam.value.questions;
    var correctCount: nat, earnedMarks, totalMarks := 0, 0, 0;
    for k := 0 to |qs|
      invariant totalMarks == Total(qs[..k])
      invariant earnedMarks == Earned(qs[..k], answers)
      invariant correctCount == Sum(qs[..k], Counting(answers))
    {
      var question := qs[k];
      assert qs[..k + 1][..k] == qs[..k];
      totalMarks := totalMarks + Marks(question);
      if question.id in answers && answers[question.id] != "" {
        var selected := FindChoice(question.options, answers[question.id]);
        if selected.Some? && selected.value.isCorrect {
          correctCount := correctCount + 1;
          earnedMarks := earnedMarks + Marks(question);
        }
      }
    }
    assert qs[..|qs|] == qs;
    var score := if totalMarks > 0 then Rounded(10_000 * earnedMarks, totalMarks) else 0;
    r := ScoreResult(score, score >= 100 * Threshold(exam.value), correctCount, |qs|);
  }

  // ---- Properties of the score ---------------------------------------------------------------------------

  lemma {:induction false} SumRemove(qs: seq<Question>, f: Question -> int, k: nat)
    requires k < |qs|
    ensures Sum(qs, f) == Sum(qs[..k] + qs[k + 1..], f) + f(qs[k])
  {
    var last := |qs| - 1;
    if k == last {
      assert qs[..k] + qs[k + 1..] == qs[..last];
    } else {
      var rest := qs[..k] + qs[k + 1..];
      assert rest[..|rest| - 1] == qs[..last][..k] + qs[..last][k + 1..];
      SumRemove(qs[..last], f, k);
    }
  }

  lemma Extract(rs: seq<Question>, q: Question) returns (k: nat)
    requires q in multiset(rs)
    ensures k < |rs| && rs[k] == q
    ensures multiset(rs[..k] + rs[k + 1..]) == multiset(rs) - multiset{q}
  {
    k :| 0 <= k < |rs| && rs[k] == q;
    assert rs == rs[..k] + [q] + rs[k + 1..];
  }

  lemma {:induction false} SumPermuted(qs: seq<Question>, rs: seq<Question>, f: Question -> int)
    requires multiset(qs) == multiset(rs)
    ensures Sum(qs, f) == Sum(rs, f)
    decreases |qs|
  {
    if qs == [] {
      assert |multiset(rs)| == 0;
    } else {
      var q := qs[|qs| - 1];
      var shorter := qs[..|qs| - 1];
      assert qs == shorter + [q];
      var k := Extract(rs, q);
      SumRemove(rs, f, k);
      SumPermuted(shorter, rs[..k] + rs[k + 1..], f);
    }
  }

  /** The order in which the questions are loaded does not matter. */
  lemma ScoreIgnoresOrder(qs: seq<Question>, rs: seq<Question>, answers: Answers)
    requires multiset(qs) == multiset(rs)
    ensures ScoreOf(qs, answers) == ScoreOf(rs, answers)
    ensures Sum(qs, Counting(answers)) == Sum(rs, Counting(answers))
  {
    SumPermuted(qs, rs, Marks);
    SumPermuted(qs, rs, Earning(answers));
    SumPermuted(qs, rs, Counting(answers));
  }

  lemma {:induction false} SumPointwise(qs: seq<Question>, f: Question -> int, g: Question -> int)
    requires forall q :: q in qs ==> f(q) <= g(q)
    ensures Sum(qs, f) <= Sum(qs, g)
  {
    if qs == [] {
    } else {
      SumPointwise(qs[..|qs| - 1], f, g);
    }
  }

  /** Answers to questions that are not on the sheet change nothing. */
  lemma ForeignAnswersIgnored(qs: seq<Question>, answers: Answers, foreign: Answers)
    requires forall q :: q in qs ==> q.id !in foreign
    ensures ScoreOf(qs, answers + foreign) == ScoreOf(qs, answers)
  {
    assert forall q :: q in qs ==> (Correct(q, answers + foreign) <==> Correct(q, answers));
    SumPointwise(qs, Earning(answers), Earning(answers + foreign));
    SumPointwise(qs, Earning(answers + foreign), Earning(answers));
  }

  predicate NonNegative(qs: seq<Question>) {
    forall q :: q in qs ==> Marks(q) >= 0
  }

  lemma {:induction false} SumZero(qs: seq<Question>)
    ensures Sum(qs, (q: Question) => 0) == 0
  {
    if qs == [] {
    } else {
      SumZero(qs[..|qs| - 1]);
    }
  }

  lemma EarnedBounds(qs: seq<Question>, answers: Answers)
    requires NonNegative(qs)
    ensures 0 <= Earned(qs, answers) <= Total(qs)
  {
    SumZero(qs);
    SumPointwise(qs, q => 0, Earning(answers));
    SumPointwise(qs, Earning(answers), Marks);
  }

  lemma ProductMonotone(d: nat, a: int, b: int)
    requires a <= b
    ensures d * a <= d * b
  {
    assert d * b - d * a == d * (b - a);
  }

  /** When a quotient reaches a whole number. */
  lemma QuotientAtLeast(n: nat, d: nat, bound: int)
    requires d > 0
    ensures n / d >= bound <==> n >= d * bound
  {
    var q := n / d;
    assert d * q <= n < d * (q + 1);
    if q >= bound {
      ProductMonotone(d, bound, q);
    } else {
      ProductMonotone(d, q + 1, bound);
    }
  }

  /** When a rounded quotient does. */
  lemma RoundedAtLeast(num: nat, den: nat, bound: int)
    requires den > 0
    ensures Rounded(num, den) >= bound <==> 2 * num + den >= 2 * den * bound
  {
    QuotientAtLeast(2 * num + den, 2 * den, bound);
  }

  lemma RoundedMonotone(a: nat, b: nat, den: nat)
    requires a <= b && den > 0
    ensures Rounded(a, den) <= Rounded(b, den)
  {
    RoundedAtLeast(b, den, Rounded(a, den));
    RoundedAtLeast(a, den, Rounded(a, den));
  }

  /** With non-negative marks the score is a percentage. */
  lemma ScoreRange(qs: seq<Question>, answers: Answers)
    requires NonNegative(qs)
    ensures 0 <= ScoreOf(qs, answers) <= 10_000
  {
    EarnedBounds(qs, answers);
    if Total(qs) > 0 {
      RoundedAtLeast(10_000 * Earned(qs, answers), Total(qs), 0);
      RoundedAtLeast(10_000 * Earned(qs, answers), Total(qs), 10_001);
    }
  }

  /** Answering more questions correctly never lowers the score. */
  lemma ScoreMonotone(qs: seq<Question>, answers: Answers, better: Answers)
    requires NonNegative(qs)
    requires forall q :: q in qs && Correct(q, answers) ==> Correct(q, better)
    ensures ScoreOf(qs, answers) <= ScoreOf(qs, better)
  {
    SumPointwise(qs, Earning(answers), Earning(better));
    EarnedBounds(qs, answers);
    if Total(qs) > 0 {
      RoundedMonotone(10_000 * Earned(qs, answers), 10_000 * Earned(qs, better), Total(qs));
    }
  }

  lemma ThresholdProduct(total: nat, threshold: int)
    ensures 2 * total * (100 * threshold) == 200 * (threshold * total)
  {
  }

  /** Rounding passes a sheet exactly when its shortfall is at most half of a hundredth of a percent. */
  lemma PassedExactly(earned: nat, total: nat, threshold: int)
    requires total > 0
    ensures Rounded(10_000 * earned, total) >= 100 * threshold <==> 200 * (threshold * total - 100 * earned) <= total
  {
    RoundedAtLeast(10_000 * earned, total, 100 * threshold);
    ThresholdProduct(total, threshold);
  }

  /** A shortfall of at most half of a hundredth of a percent of so few marks is none. */
  lemma NoShortfall(due: int, earned: nat, total: nat, k: int)
    requires 0 < total <= 200 && (total == 200 ==> due == 100 * k)
    ensures 200 * (due - 100 * earned) <= total <==> 100 * earned >= due
  {
  }

  /** Up to 200 marks in all, rounding decides no one's result. */
  lemma PassedIsExactTo200(earned: nat, total: nat, threshold: int)
    requires 0 < total <= 200
    ensures Rounded(10_000 * earned, total) >= 100 * threshold <==> 100 * earned >= threshold * total
  {
    PassedExactly(earned, total, threshold);
    assert total == 200 ==> threshold * total == 100 * (2 * threshold);
    NoShortfall(threshold * total, earned, total, 2 * threshold);
  }

  /** So a scored sheet is passed exactly when its shortfall is at most that much, ... */
  lemma ResultExactly(sheet: Sheet, answers: Answers, r: ScoreResult)
    requires NonNegative(sheet.questions) && Total(sheet.questions) > 0 && Scores(Some(sheet), answers, r)
    ensures var earned, total := Earned(sheet.questions, answers), Total(sheet.questions);
            r.passed <==> 200 * (Threshold(sheet) * total - 100 * earned) <= total
  {
    EarnedBounds(sheet.questions, answers);
    PassedExactly(Earned(sheet.questions, answers), Total(sheet.questions), Threshold(sheet));
  }

  /** ... and up to 200 marks exactly when the earned share reaches the threshold. */
  lemma ResultIsExactTo200(sheet: Sheet, answers: Answers, r: ScoreResult)
    requires NonNegative(sheet.questions) && 0 < Total(sheet.questions) <= 200 && Scores(Some(sheet), answers, r)
    ensures r.passed <==> 100 * Earned(sheet.questions, answers) >= Threshold(sheet) * Total(sheet.questions)
  {
    EarnedBounds(sheet.questions, answers);
    PassedIsExactTo200(Earned(sheet.questions, answers), Total(sheet.questions), Threshold(sheet));
  }

  /** With 201 marks it does: 2 of 201 passes a threshold of one percent. */
  lemma PassedInexactAt201()
    ensures Rounded(10_000 * 2, 201) >= 100 * 1 && 100 * 2 < 1 * 201
  {
  }

  // ---- What an answer earns, by the options alone --------------------------------------------------------

  /** An option that the answers name is marked correct, and no other option has its id. */
  ghost predicate Right(q: Question, answers: Answers) {
    && q.id in answers && answers[q.id] != ""
    && (forall i, j :: 0 <= i < j < |q.options| ==> q.options[i].id != q.options[j].id)
    && exists o :: o in q.options && o.id == answers[q.id] && o.isCorrect
  }

  /** No option that the answers name is marked correct. */
  ghost predicate Wrong(q: Question, answers: Answers) {
    q.id in answers ==> forall o :: o in q.options && o.id == answers[q.id] ==> !o.isCorrect
  }

  lemma RightIsCorrect(q: Question, answers: Answers)
    requires Right(q, answers)
    ensures Correct(q, answers)
  {
    var o :| o in q.options && o.id == answers[q.id] && o.isCorrect;
    var k :| 0 <= k < |q.options| && q.options[k] == o;
    assert forall j :: 0 <= j < k ==> q.options[j].id != answers[q.id];
  }

  lemma WrongIsNotCorrect(q: Question, answers: Answers)
    requires Wrong(q, answers)
    ensures !Correct(q, answers)
  {
  }

  lemma NothingEarned(qs: seq<Question>, answers: Answers)
    requires forall q :: q in qs ==> Wrong(q, answers)
    ensures Earned(qs, answers) == 0 && Sum(qs, Counting(answers)) == 0
  {
    forall q | q in qs
      ensures Earning(answers)(q) == 0 && Counting(answers)(q) == 0
    {
      WrongIsNotCorrect(q, answers);
    }
    SumNothing(qs, Earning(answers));
    SumNothing(qs, Counting(answers));
  }

  /** Where nothing right is chosen, nothing is scored, and no positive threshold is met. */
  lemma WrongScoresNothing(sheet: Sheet, answers: Answers, r: ScoreResult)
    requires Scores(Some(sheet), answers, r) && forall q :: q in sheet.questions ==> Wrong(q, answers)
    ensures r.score == 0 && r.correctCount == 0
    ensures sheet.passingScore.None? || sheet.passingScore.value > 0 ==> !r.passed
  {
    NothingEarned(sheet.questions, answers);
  }

  lemma {:induction false} SumNothing(qs: seq<Question>, f: Question -> int)
    requires forall q :: q in qs ==> f(q) == 0
    ensures Sum(qs, f) == 0
  {
    if qs == [] {
    } else {
      SumNothing(qs[..|qs| - 1], f);
    }
  }

  lemma {:induction false} SumSame(qs: seq<Question>, f: Question -> int, g: Question -> int)
    requires forall q :: q in qs ==> f(q) == g(q)
    ensures Sum(qs, f) == Sum(qs, g)
  {
    if qs == [] {
    } else {
      SumSame(qs[..|qs| - 1], f, g);
    }
  }

  lemma {:induction false} SumOnes(qs: seq<Question>, f: Question -> int)
    requires forall q :: q in qs ==> f(q) == 1
    ensures Sum(qs, f) == |qs|
  {
    if qs == [] {
    } else {
      SumOnes(qs[..|qs| - 1], f);
    }
  }

  /** Where everything is answered right, every question counts and the score is 100 percent. */
  lemma RightScoresAll(sheet: Sheet, answers: Answers, r: ScoreResult)
    requires Scores(Some(sheet), answers, r) && forall q :: q in sheet.questions ==> Right(q, answers)
    ensures r.correctCount == r.totalCount == |sheet.questions|
    ensures Total(sheet.questions) > 0 ==> r.score == 10_000
    ensures NonNegative(sheet.questions) && (exists q :: q in sheet.questions && (q.marks.Some? ==> q.marks.value > 0))
            ==> r.score == 10_000
  {
    forall q | q in sheet.questions
      ensures Earning(answers)(q) == Marks(q) && Counting(answers)(q) == 1
    {
      RightIsCorrect(q, answers);
    }
    SumSame(sheet.questions, Earning(answers), Marks);
    SumOnes(sheet.questions, Counting(answers));
    if NonNegative(sheet.questions) && exists q :: q in sheet.questions && (q.marks.Some? ==> q.marks.value > 0) {
      TotalIsPositive(sheet.questions);
    }
    if Total(sheet.questions) > 0 {
      WholeMarks(Total(sheet.questions));
    }
  }

  lemma {:induction false} TotalIsPositive(qs: seq<Question>)
    requires NonNegative(qs) && exists q :: q in qs && (q.marks.Some? ==> q.marks.value > 0)
    ensures Total(qs) > 0
  {
    var front, last := qs[..|qs| - 1], qs[|qs| - 1];
    EarnedBounds(front, map[]);
    assert last in qs;
    if last.marks.Some? && last.marks.value <= 0 {
      assert forall q :: q in qs ==> q in front || q == last;
      TotalIsPositive(front);
    }
  }

  lemma WholeMarks(total: nat)
    requires total > 0
    ensures Rounded(10_000 * total, total) == 10_000
  {
    RoundedAtLeast(10_000 * total, total, 10_000);
    RoundedAtLeast(10_000 * total, total, 10_001);
  }

  /** Turning one answer from wrong to right raises the count by one, and the marks earned by those of its question. */
  lemma OneMoreRight(qs: seq<Question>, k: nat, answers: Answers, better: Answers)
    requires k < |qs| && Wrong(qs[k], answers) && Right(qs[k], better)
    requires forall i, j :: 0 <= i < j < |qs| ==> qs[i].id != qs[j].id
    requires forall id :: id != qs[k].id ==> (id in better <==> id in answers)
                                             && (id in answers ==> better[id] == answers[id])
    ensures Sum(qs, Counting(better)) == Sum(qs, Counting(answers)) + 1
    ensures Earned(qs, better) == Earned(qs, answers) + if qs[k].marks.Some? then qs[k].marks.value else 1
  {
    RightIsCorrect(qs[k], better);
    WrongIsNotCorrect(qs[k], answers);
    forall i | 0 <= i < |qs| && i != k
      ensures Correct(qs[i], better) <==> Correct(qs[i], answers)
    {
      assert qs[i].id != qs[k].id by {
        assert i < k || k < i;
      }
    }
    SumChanged(qs, k, Counting(answers), Counting(better));
    SumChanged(qs, k, Earning(answers), Earning(better));
  }

  lemma {:induction false} SumChanged(qs: seq<Question>, k: nat, f: Question -> int, g: Question -> int)
    requires k < |qs| && forall i :: 0 <= i < |qs| && i != k ==> f(qs[i]) == g(qs[i])
    ensures Sum(qs, g) == Sum(qs, f) + g(qs[k]) - f(qs[k])
  {
    var front := qs[..|qs| - 1];
    if k == |qs| - 1 {
      forall q | q in front
        ensures f(q) == g(q)
      {
        var i :| 0 <= i < |front| && front[i] == q;
        assert qs[i] == q;
      }
      SumSame(front, f, g);
    } else {
      SumChanged(front, k, f, g);
    }
  }

  /** Without marks of their own all questions weigh the same, and without a threshold of its own a sheet needs 80. */
  lemma Defaults(sheet: Sheet, answers: Answers, r: ScoreResult)
    requires Scores(Some(sheet), answers, r) && sheet.questions != []
    ensures (forall q :: q in sheet.questions ==> q.marks.None?) ==>
              r.score == Rounded(10_000 * r.correctCount, |sheet.questions|)
    ensures sheet.passingScore.None? ==> (r.passed <==> r.score >= 8_000)
    ensures sheet.passingScore.Some? ==> (r.passed <==> r.score >= 100 * sheet.passingScore.value)
  {
    if forall q :: q in sheet.questions ==> q.marks.None? {
      SumOnes(sheet.questions, Marks);
      SumSame(sheet.questions, Earning(answers), Counting(answers));
    }
  }
}
