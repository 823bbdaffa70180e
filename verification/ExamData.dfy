/** The rows that the exam services share, and the answers a student sends. */
module ExamData {
  import opened Wrappers

  /** The option chosen for each question, by id. */
  type Answers = map<string, string>

  datatype Choice = Choice(id: string, isCorrect: bool)

  datatype Question = Question(id: string, marks: Option<int>, options: seq<Choice>)

  datatype Sheet = Sheet(questions: seq<Question>, passingScore: Option<int>)

  datatype Exam = Exam(
    id: string, certId: string, examOrder: int, published: bool, durationMinutes: int, sheet: Sheet)

  datatype AccessCode = AccessCode(
    userId: string, examId: string, certId: string, secret: string, createdAt: nat, expiresAt: nat, used: bool)
}
