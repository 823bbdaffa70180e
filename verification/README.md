# A verified model of the learning platform's exam, token and content logic

This project models the parts of an exam and certification backend whose correctness depends on interleavings,
on arithmetic or on text rewriting, and proves what they guarantee. Where the code guarantees less than its
comments suggest, the exact condition is proved and a concrete run shows what happens outside it.

## How it is organised

**Exam sessions.** A session lives in two stores: a row (`ACTIVE`, `EXPIRED`, `SUBMITTED`, `AUTO_SUBMITTED`) and two
Redis keys, the countdown and the 120-second grace window.

- `RedisStore`, `TestSessions` and `ExamService` are the services themselves, as classes that change the stores in
  place.
- `SessionProtocol` is the same code as steps: every awaited Redis or SQL call, and every transaction, is one atomic
  step of one request in flight, and requests, expiry notifications and the clock interleave freely.
- `SoloRuns` connects the two: each service method leaves both stores where the steps of its request leave them, and
  such a run is a run of the protocol. `ExamOutcomes` says where that is, column by column.
- `SessionFlow`, `SessionAccounting`, `SessionKeys`, `SessionGrace` and `SessionSnapshots` are the inductive
  invariants; `SessionTheorems` draws the conclusions; `SessionWitnesses` holds the run with two attempts;
  `SessionAutosaves` and `SessionLateAnswers` say when an automatic or a late submission has the answers that were
  accepted last.
- `ExamBackend` puts all sessions and all `startExam` calls together with the access codes; `AccessCodes`,
  `CodeOwners` and `ActiveSessions` say what that keeps.

The central invariant is a baton: a session that is neither submitted nor undone always has exactly one of a pending
start, a live countdown, its undelivered expiry, an expiry handler before or after its write, a live grace window, its
undelivered expiry, or a late or automatic submission on its way. From this follow both "no session is stranded" and
"at most one expiry write can land on a submitted row".

**Tokens.** `RefreshTokens` and `RotationTheorems` are refresh-token rotation in every interleaving; `AuthTokens` is the
one-time-token protocol; `AuthService` has the methods themselves.

**Content and numbers.** `Scoring`, `Assignment`, `CatalogPaging` and `CatalogWalks`, `Translations` and
`CatalogEditing`, `Learning`, `CertificateNumbers`, and the mail templates: `HtmlEscape`, `TemplateRenderer` (the
regular expressions on text), `TemplatePieces` (the same passes on tags), `TemplateTrees` (what a template means),
`TemplateTags` (what each tag does) and `TemplateWitness` (a template that is not rendered as it should be).

`ExamData`, `Counting`, `Sorting`, `Courses` and `Wrappers` are shared vocabulary.

## What the model takes for granted

- Redis: a key whose deadline is not in the future is dead; a command that touches it removes it and publishes its
  expiry notification, and the server may do so by itself at any time. Notifications are delivered eventually, in any
  order, each to one subscriber: with several server processes subscribed, every one of them would handle each expiry,
  and the bounds "at most one expiry write" and "at most two attempts" are not claimed. `SET … EX` refuses a
  time-to-live that is not positive. A start may fail before or after Redis stored the key (`Refused`,
  `StoredButLost`); both lead to the compensation.
- One clock, in milliseconds, that never runs backwards, for both stores and the server.
- Requests may name any session at any time, even one whose start has not returned. This is why the accounting has a
  term `unwound`: the compensation of a failed start may delete a row that was submitted meanwhile.
- Comparing a bcrypt hash is comparing the secret it was made from; a presented refresh token is the one the row was
  made for or not (`genuine`).
- `Log`, `usedBy`, `revokedBy`, `parent` and `abandoned` are history kept by the model; the code has only the
  timestamps. Attempts are grouped by the session that made them, although their table has no session column.
- Scores and percentages are exact quotients, rounded half away from zero.
- In `TemplateRenderer`, strings are sequences of characters and the character classes are those of the regular
  expressions `\w` and `\s`. Template text may hold single braces, as style sheets do, but no opening brace before
  another or at the end of a piece of text.

## Where the code and its comments disagree

Each of these has the exact condition under which the comment is right, and an input for which it is not.

- "Only one submitter can move the session" holds for the conditional UPDATE, but the expiry handler's write of
  `EXPIRED` is unconditional, so a submission between its check and its write is undone and the session is submitted
  twice (`AttemptsWhenOver`, `TwoAttempts`).
- "Student cannot have an active session for this exam" is looked up before the transaction that creates one. It holds
  throughout a run exactly when no start commits while there is an active session (`OneActiveExactly`, `TwoActive`).
- "Revoking all sessions" after reuse does not reach a login that has not inserted its token, or a rotation that has
  revoked the old one and not inserted the new (`OutlivesRevokeAllExactly`, `LiveTokenAfterReuse`).
- "A safe answer set to score": the row follows what Redis accepted by a write of its own. An automatic submission has
  the last accepted answers exactly when the row was current when it was read (`LastAcceptedIsScoredExactly`,
  `AcceptedMayBeLost`); autosaves that take turns see to that (`LastAcceptedIsScored`).
- Following `nextCursor`, whose timestamp is cut to milliseconds, shows every row exactly when the pages are cut
  cleanly (`FollowingIsExact`). It may otherwise skip a row newest first (`DescendingMaySkip`). Oldest first it may
  never end (`AscendingMayNeverEnd`): it ends when no full page lies within one millisecond, and among timestamps that
  are not whole milliseconds only then (`SparseWalkEnds`, `AscendingEndsExactly`).
- `UpdateCertificateDto` says that sending translations replaces the whole column; `buildTranslations` merges
  (`ReplacesExactly`, `UpdateMayMerge`).
- The canonical title and its English mirror may drift (`MirrorKeptExactly`, `ClearingEnglishBreaksTheMirror`).
- Nested conditionals are rendered as they should be exactly when no block is inside one of its tag
  (`RendersExactlyWhenApart`, `NestedIfLeavesItsTail`).
- "One outstanding code per exam per student": the query for it has no order and does not ask whether the code is
  still valid, so an expired unused code may hide a valid one, and a second is issued. A second assignment is refused
  for certain exactly when there is an unused code of the exam and none of them has expired (`SecondExactly`,
  `ExpiredHidesValid`).
- A certificate number has six digits; the sequence has no maximum. The millionth certificate of a program in a year
  gets the id of its hundred-thousandth and is refused by the unique index (`YearlyCapacity`, `TheMillionthFails`).
- `getCurriculum` hides an inactive certificate; `getProgressSummary` still lists it (`SameCertificatesExactly`,
  `ListedButNotServed`).

## Model

| member | source | states |
|---|---|---|
| RedisStore.RedisService.SetJson | src/modules/redis/redis.service.ts:21-23 | The key holds the value with a deadline that many seconds ahead, or the command is refused for a non-positive TTL and nothing changes; no other key is touched |
| RedisStore.RedisService.SetJsonKeepTtl | src/modules/redis/redis.service.ts:33-45 | Writes exactly when the key is live, keeps its deadline, and never creates a key |
| RedisStore.RedisService.GetJson | src/modules/redis/redis.service.ts:48-57 | The value of a live key, nothing for an absent or dead one; a dead key is announced once |
| RedisStore.RedisService.GetDelJson | src/modules/redis/redis.service.ts:64-73 | The value of a live key, which is then gone, so that no second caller can have it |
| RedisStore.RedisService.Del | src/modules/redis/redis.service.ts:88-90 | The key is gone; a live key is removed without an expiry notification |
| RedisStore.RedisService.Pttl | src/modules/redis/redis.service.ts:82-84 | Positive exactly when the key is live, and then the time to its deadline |
| TestSessions.RouteInvertsKeys | src/modules/redis/redis.module.ts:75-89 | Every expiry notification reaches the handler of its own kind and session, and no other |
| TestSessions.KeysAreNamed | src/modules/redis/redis.constants.ts:13-20 | The two prefixes, and the handler each leads to |
| TestSessions.KeysAreDistinct | src/modules/redis/redis.constants.ts:13-20 | No two sessions share a key, and no countdown key is a grace key |
| TestSessions.TestSessionService.Start | src/modules/exam/test-session.service.ts:43-53 | The countdown is set to the exam's duration with empty answers, also when the reply is lost; a refused command or a non-positive duration changes nothing; other sessions are untouched |
| TestSessions.TestSessionService.GetSession | src/modules/exam/test-session.service.ts:63-65 | The first half of an autosave: what is stored under a live countdown |
| TestSessions.TestSessionService.Overwrite | src/modules/exam/test-session.service.ts:66-66 | The second half: the answers change, the deadline and the identity stay, and a key that is gone stays gone |
| TestSessions.TestSessionService.DeleteSession | src/modules/exam/test-session.service.ts:85-87 | The countdown is gone; a live one is removed silently, an overdue one is announced once |
| TestSessions.TestSessionService.StartGrace | src/modules/exam/test-session.service.ts:96-105 | A grace window of 120 seconds holding the snapshot |
| TestSessions.TestSessionService.ConsumeGrace | src/modules/exam/test-session.service.ts:112-121 | The snapshot of an open window, which is then closed |
| ExamService.ExamService.GetOwnedSession | src/modules/exam/exam.service.ts:646-668 | Succeeds exactly for the owner of a row in the wanted status; not found, forbidden and unprocessable each exactly when |
| ExamService.ExamService.Autosave | src/modules/exam/exam.service.ts:292-312 | Succeeds exactly when the row is the caller's and active and the countdown is live; then the row and the countdown hold these answers and the deadline stays, and otherwise no row changes; each error exactly when; run alone it leaves both stores as the protocol's steps do |
| ExamService.ExamService.CommitAttempt | src/modules/exam/exam.service.ts:556-625 | Exactly when the row is neither submitted nor gone, it is submitted with these answers and one attempt row is added, with its score, pass mark, times and duration |
| ExamService.ExamService.Persist | src/modules/exam/exam.service.ts:587-628 | The transaction and the deletion of the countdown leave the stores as the steps do |
| ExamService.ExamService.ScoreAndPersist | src/modules/exam/exam.service.ts:545-636 | Conflict exactly when somebody else has submitted, and then no row is changed; otherwise the result is the score due to these answers, and it is what the new attempt row holds |
| ExamService.ExamService.SubmitExam | src/modules/exam/exam.service.ts:343-350 | Succeeds exactly for the owner of an active row; the row is then `SUBMITTED` with these answers, one attempt is added, the countdown is gone, and the recorded score is theirs; otherwise nothing changes |
| ExamService.ExamService.LateSubmitExam | src/modules/exam/exam.service.ts:358-390 | Succeeds exactly for the owner of an expired row with an open grace window, which is closed; the row is submitted and scored with the answers sent or, if there are none, with those under the grace key |
| ExamService.ExamService.HandleSessionExpiry | src/modules/exam/exam-keyspace.handler.ts:60-98 | An active row becomes `EXPIRED` and the grace key holds its snapshot, or no answers if it has none, for 120 seconds; for any other row nothing changes |
| ExamService.ExamService.HandleGraceExpiry | src/modules/exam/exam.service.ts:398-434 | A row that is not yet submitted becomes `AUTO_SUBMITTED` with its own snapshot, and the recorded score is due to that; any other stays as it is |
| ExamService.ExamService.FindAndVerifyCode | src/modules/exam/exam.service.ts:679-706 | Finds the newest unused, unexpired code with this secret, and fails exactly when there is none or the exam is not published |
| ExamService.ExamService.Consume | src/modules/exam/exam.service.ts:210-235 | Exactly when the code is unused it is used up and the session row exists, active and without a countdown yet |
| ExamService.ExamService.Compensate | src/modules/exam/exam.service.ts:253-260 | The row is gone and the code is free; both stores are otherwise as they were |
| ExamService.ExamService.ConsumeAndOpen | src/modules/exam/exam.service.ts:210-265 | A code is consumed with its row and countdown, or rows and codes are as before; the countdown stays only if Redis stored it and the reply was lost |
| ExamService.ExamService.StartExam | src/modules/exam/exam.service.ts:177-284 | Not found, forbidden, conflict and success each exactly when; a success uses up the code and leaves an active row and its countdown; a start is refused while the student has an active session for the exam; a failed one leaves rows and codes as they were |
| SoloRuns.SoloIsARun | src/modules/exam/exam.service.ts:292-434 | What a request does alone is a run of the protocol, whatever other requests wait meanwhile |
| ExamOutcomes.AutosaveOutcome | src/modules/exam/exam.service.ts:292-312 | Where the steps of an autosave lead: row and countdown with the new answers, or only the end of a countdown that has run out |
| ExamOutcomes.CommitOutcome | src/modules/exam/exam.service.ts:556-628 | Where a submission leads: the row submitted with these answers, one attempt more and no countdown, or no change |
| ExamOutcomes.LateOutcome | src/modules/exam/exam.service.ts:358-390 | Where a late submission leads: the grace key is gone, and what is submitted is what was sent or, if that is empty, what the key held |
| ExamOutcomes.ExpiryOutcome | src/modules/exam/exam-keyspace.handler.ts:60-98 | Where an expiry leads: an active row expires and its snapshot is kept under the grace key for 120 seconds; nothing else changes |
| ExamOutcomes.GraceOutcome | src/modules/exam/exam.service.ts:398-434 | Where the end of a grace window leads: an unsubmitted row is submitted automatically from its own snapshot |
| SessionFlow.NextKeepsFlow | src/modules/exam/exam-keyspace.handler.ts:60-109 | Every step keeps the baton: at most one, and exactly one while the session is open and its start has not failed |
| SessionAccounting.NextKeepsAccounts | src/modules/exam/exam.service.ts:594-615 | Every step keeps the attempt accounts |
| SessionKeys.NextKeepsKeys | src/modules/exam/test-session.service.ts:43-67 | Every step keeps the countdown's deadline and identity, also those that an autosave has read |
| SessionKeys.NextKeyForward | src/modules/redis/redis.service.ts:33-45 | No step moves a deadline or brings a countdown back |
| SessionGrace.NextKeepsGrace | src/modules/exam/exam.service.ts:358-390 | Every step keeps the order of grace windows, consumptions and late attempts |
| SessionSnapshots.NextKeepsSnapshots | src/modules/exam/exam.service.ts:297-311 | Every step keeps every stored or carried snapshot justified |
| SessionSnapshots.NextAcceptsInTime | src/modules/exam/test-session.service.ts:59-67 | Answers are accepted only before the deadline of the countdown |
| SessionTheorems.ReachableInv | src/modules/exam/exam.service.ts:292-434 | All invariants hold in every state of every interleaving |
| SessionTheorems.ExactAccounting | src/modules/exam/exam.service.ts:594-615 | Attempts = one if the row is submitted, plus expiry writes that landed on a submitted row, plus compensations that deleted one, of which there is none while the row exists; never more than two, and when exactly two |
| SessionTheorems.OneAttemptUnlessRaced | src/modules/exam/exam-keyspace.handler.ts:72-83 | At most one attempt unless a submission commits between the handler's check and its write; if one does, the row is overwritten or about to be |
| SessionTheorems.AttemptsWhenOver | src/modules/exam/exam-keyspace.handler.ts:72-83 | In a finished run the race decides exactly: two attempts with it, one without |
| SessionTheorems.NeverStranded | src/modules/exam/exam-keyspace.handler.ts:60-109 | Every unsubmitted row has a live key, an undelivered event, or a start, handler or submission in flight |
| SessionTheorems.UnattendedRunsEnd | src/modules/exam/exam-keyspace.handler.ts:60-109 | Without new requests no run is longer than the rank of its first state |
| SessionTheorems.QuietIsSubmitted | src/modules/exam/exam.service.ts:398-434 | A session at which nothing can happen any more is submitted, or was undone |
| SessionTheorems.EverySessionEnds | src/modules/exam/exam-keyspace.handler.ts:60-109 | From every reachable state the timers alone lead to a submitted or undone session |
| SessionTheorems.DeadlineIsFixed | src/modules/exam/test-session.service.ts:43-67 | Over any run the countdown keeps its deadline and identity; once gone it never returns; it never ends early |
| SessionTheorems.SnapshotProvenance | src/modules/exam/exam.service.ts:297-311 | A stored snapshot, and so an automatic submission, is empty, or was accepted while the countdown was live, or is the answers of an earlier attempt |
| SessionTheorems.GraceDiscipline | src/modules/exam/exam.service.ts:358-390 | Late attempts are covered by consumptions and those by windows; each consumption is by the owner and less than 120 seconds after its window opened |
| SessionTheorems.OnlyTheOwnerTakesGrace | src/modules/exam/exam.service.ts:363-373 | While a grace window is open only a late submission of the owner takes it away, one that has passed its check on the expired row earlier in the run |
| SessionWitnesses.TwoAttempts | src/modules/exam/exam-keyspace.handler.ts:72-83 | For every exam of positive length there is a run with two attempts |
| SessionAutosaves.NextSaves | src/modules/exam/exam.service.ts:297-311 | While autosaves take turns every step keeps row, requests and first automatic attempt in line with what Redis accepted |
| SessionAutosaves.LastAcceptedIsScored | src/modules/exam/exam.service.ts:297-311 | If no two autosaves are between acceptance and row at once, and none is when the row is read for submission, a first attempt that is automatic has the answers accepted last |
| SessionAutosaves.LastAcceptedIsScoredExactly | src/modules/exam/exam.service.ts:398-420 | In any run, a first attempt that is automatic has the answers accepted last if and only if the row held them when the submission read it |
| SessionAutosaves.AcceptedMayBeLost | src/modules/exam/exam.service.ts:309-311 | For every exam of positive length and any answers there is a run in which Redis accepts them and the automatic submission scores none |
| SessionLateAnswers.LateScoresSentOrAccepted | src/modules/exam/exam.service.ts:375-383 | Where autosaves take turns and expiry reads a current row, a first attempt that is late has the non-empty answers of a late submission or those accepted last |
| SessionLateAnswers.EmptyLateScoresAccepted | src/modules/exam/exam.service.ts:375-383 | So if late submissions send no answers, it has those accepted last |
| AccessCodes.UsedExactlyWhenCarried | src/modules/exam/exam.service.ts:210-265 | At every state of any interleaving of starts, failures and compensations, a code is used exactly when one session row carries it |
| AccessCodes.EverySessionFollowsProtocol | src/modules/exam/exam.service.ts:177-284 | Every session of the backend is a state of the session protocol, so all theorems above apply to it |
| CodeOwners.SessionsAreRightful | src/modules/exam/exam.service.ts:177-235 | In every run the row of a session names the user, exam and certificate of the code it carries; that user gave the secret of that code before it expired, and the exam was found published with the duration the row has |
| ActiveSessions.StepKeepsOneExactly | src/modules/exam/exam.service.ts:194-235 | A step keeps at most one active session per user and exam exactly when it is not a commit of a start while there is one |
| ActiveSessions.OneActiveExactly | src/modules/exam/exam.service.ts:193-235 | A run keeps it throughout exactly when no start commits while its user has an active session for the exam |
| ActiveSessions.OneActiveWithoutOverlap | src/modules/exam/exam.service.ts:193-235 | So it does when no two starts of one user for one exam are between their guard and their commit at once |
| ActiveSessions.TwoActive | src/modules/exam/exam.service.ts:193-235 | For every user and published exam there is a run, with two codes, after which two sessions are active |
| ActiveSessions.OneActiveMeans | src/modules/exam/exam.service.ts:193-204 | At most one active session means that two active rows of one user and exam are the same row |
| Scoring.ScoreAnswers | src/modules/exam/exam.service.ts:438-479 | The loop computes the score, the pass mark and the counts that are due to the answers; the next four rows say what those are |
| Scoring.WrongScoresNothing | src/modules/exam/exam.service.ts:463-476 | Where no option chosen is marked correct, nothing is scored or counted and no positive threshold is met |
| Scoring.RightScoresAll | src/modules/exam/exam.service.ts:463-476 | Where every question is answered with its option marked correct, all count and the score is 100 percent |
| Scoring.OneMoreRight | src/modules/exam/exam.service.ts:463-468 | Turning one answer from wrong to right raises the count by one and the marks earned by those of its question, one by default |
| Scoring.Defaults | src/modules/exam/exam.service.ts:452-476 | Without marks of their own all questions weigh the same; without a threshold of its own a sheet is passed from 80 percent |
| Scoring.ScoreIgnoresOrder | src/modules/exam/exam.service.ts:458-468 | The score does not depend on the order of the questions |
| Scoring.ForeignAnswersIgnored | src/modules/exam/exam.service.ts:461-462 | Answers to questions that the exam does not have change nothing |
| Scoring.ScoreRange | src/modules/exam/exam.service.ts:471-474 | With non-negative marks the score lies between 0 and 100 |
| Scoring.ScoreMonotone | src/modules/exam/exam.service.ts:464-467 | Answering more questions correctly never lowers the score |
| Scoring.PassedExactly | src/modules/exam/exam.service.ts:471-476 | The rounded comparison passes exactly when the shortfall is at most half of a hundredth of a percent |
| Scoring.PassedIsExactTo200 | src/modules/exam/exam.service.ts:471-476 | Up to 200 marks, passing is the exact test 100·earned ≥ threshold·total |
| Scoring.ResultExactly | src/modules/exam/exam.service.ts:458-478 | A scored sheet is passed exactly when its shortfall is at most half of a hundredth of a percent of its marks |
| Scoring.ResultIsExactTo200 | src/modules/exam/exam.service.ts:458-478 | A scored sheet of up to 200 marks is passed exactly when the earned share reaches its threshold |
| Scoring.PassedInexactAt201 | src/modules/exam/exam.service.ts:471-476 | At 201 marks rounding passes 2 of 201 at one percent |
| Assignment.PoolAscends | src/modules/exam/exam.service.ts:115-118 | The pool has exactly the published exams of the certificate, each once, in strictly ascending order |
| Assignment.RoundTakesFirst | src/modules/exam/exam.service.ts:125-148 | A round of assign, sit and submit takes the lowest unattempted exam and leaves the rest |
| Assignment.RoundsVisitInOrder | src/modules/exam/exam.service.ts:105-150 | Repeated rounds visit the unattempted exams from the lowest order up, each once, whatever codes the student holds |
| Assignment.RoundsGoOn | src/modules/exam/exam.service.ts:133-144 | While an exam is left the next round can be had: a code is issued, or a usable one is outstanding |
| Assignment.WholePoolThenRefused | src/modules/exam/exam.service.ts:119-131 | A new student sits the whole pool in order; an assignment is refused for good exactly then |
| Assignment.AssignmentService.FindOpen | src/modules/exam/exam.service.ts:125-131 | The loop finds the first exam of the pool that has not been attempted |
| Assignment.AssignmentService.FindOutstanding | src/modules/exam/exam.service.ts:135-137 | The unordered query returns some unused code of the exam, and none only if there is none |
| Assignment.AssignmentService.AssignNext | src/modules/exam/exam.service.ts:105-150 | No exams, pool exhausted and code outstanding each exactly when; otherwise the open exam of the lowest order, and one new unused code for it, valid for 24 hours |
| Assignment.OutcomesExactly | src/modules/exam/exam.service.ts:115-141 | Each outcome in terms of the published exams, the attempts and the code found |
| Assignment.SecondExactly | src/modules/exam/exam.service.ts:135-141 | While the assigned exam is unattempted, a second assignment is refused exactly when the code found is still valid; so for certain if and only if there is an unused code of the exam and none has expired |
| Assignment.SecondIsRefused | src/modules/exam/exam.service.ts:133-144 | The code of a first assignment, alone and unused, has a second one refused for 24 hours |
| Assignment.ExpiredHidesValid | src/modules/exam/exam.service.ts:135-141 | For every user and published exam: with an unused code of the day before, a second code of today is followed by a third |
| RotationTheorems.NextConserves | src/modules/auth/auth.service.ts:174-243 | Every step keeps each login in exactly one place: a live token, a rotation in flight, or a revocation |
| RotationTheorems.RotationConserves | src/modules/auth/auth.service.ts:174-243 | In every interleaving live tokens and rotations in flight never exceed the subject's logins |
| RotationTheorems.EachTokenMintsOnce | src/modules/auth/auth.service.ts:206-218 | A token that won its rotation has exactly one successor, inserted, on its way or given up; any other has none |
| RotationTheorems.RevokeAllIsComplete | src/modules/auth/auth.service.ts:408-417 | A revoke-all leaves the subject without live tokens |
| RotationTheorems.RevocationIsForever | src/modules/auth/auth.service.ts:186-218 | A revoked token stays revoked in the same way; one not revoked by a rotation never has a successor |
| RotationTheorems.LiveAfterRevokeAll | src/modules/auth/auth.service.ts:186-243 | How many tokens can be live after a revoke-all: at most the later logins and what had been won but not inserted |
| RotationTheorems.OutlivesRevokeAllExactly | src/modules/auth/auth.service.ts:186-243 | After a revoke-all the subject can have a live token without another login if and only if one of its logins or won rotations had not inserted yet |
| RotationTheorems.ReuseRace | src/modules/auth/auth.service.ts:206-218 | A run in which reuse is detected while the rotation that won has not yet issued its token |
| RotationTheorems.LiveTokenAfterReuse | src/modules/auth/auth.service.ts:206-232 | Such a run ends with a live token and no new login |
| RotationTheorems.LogoutEndsToken | src/modules/auth/auth.service.ts:237-243 | A logout leaves its owner one live token fewer and others as many, and its token never has a successor |
| RotationTheorems.ReuseSweeps | src/modules/auth/auth.service.ts:186-218 | A request that finds its token revoked, or loses the race for it, goes on to revoke every token of the owner |
| RotationTheorems.NewPasswordSweeps | src/modules/auth/auth.service.ts:286-291 | A new password leaves the student without live tokens |
| RotationTheorems.LoginMints | src/modules/auth/auth.service.ts:374-406 | A login brings one live token, for seven days |
| AuthService.AuthService.RevokeAllRefreshTokens | src/modules/auth/auth.service.ts:408-417 | Every unrevoked token of the owner is revoked; no other column or token changes |
| AuthService.AuthService.IssueRefreshToken | src/modules/auth/auth.service.ts:374-406 | One live token with the full lifetime is appended, and nothing else changes |
| AuthService.AuthService.Refresh | src/modules/auth/auth.service.ts:174-233 | Succeeds exactly for a stored, unexpired, unrevoked, genuine token of an active owner, which is then revoked and succeeded by one for seven days; a revoked one has every token of its owner revoked; otherwise no token changes, but that one of an inactive owner is revoked |
| AuthService.AuthService.Logout | src/modules/auth/auth.service.ts:237-243 | An unrevoked stored token is revoked; an earlier cause is kept, and nothing else changes |
| AuthService.AuthService.FindCandidates | src/modules/auth/auth.service.ts:457-461 | The unused rows of the purpose that have fewer than fifty newer ones, newest first |
| AuthService.AuthService.ConsumeAuthToken | src/modules/auth/auth.service.ts:453-479 | Succeeds exactly when a matching row is unused, unexpired and preceded by fewer than fifty newer unused rows; consumes the newest such row only |
| AuthService.AuthService.IssueAuthToken | src/modules/auth/auth.service.ts:419-444 | Exactly the unused rows of the user and purpose are superseded, and the new token is appended |
| AuthService.AuthService.ResetPassword | src/modules/auth/auth.service.ts:277-292 | Succeeds exactly when some row is redeemable: one is consumed, the password is new and every refresh token of the user is revoked; otherwise nothing changes |
| AuthService.AuthService.ChangePassword | src/modules/auth/auth.service.ts:516-546 | Succeeds exactly for an active student with the current password and a different new one: the password is new and every refresh token is revoked; otherwise nothing changes |
| AuthTokens.StepKeepsOnce | src/modules/auth/auth.service.ts:467-473 | Every step keeps consumptions and used rows in one-to-one correspondence, and no row is ever unused again |
| AuthTokens.ConsumedAtMostOnce | src/modules/auth/auth.service.ts:453-479 | In every interleaving each row is consumed at most once, and a superseded one never |
| AuthTokens.NewerCounts | src/modules/auth/auth.service.ts:457-461 | The position of a row in the candidate query is the number of newer unused rows of its purpose |
| AuthTokens.ConsumeAlone | src/modules/auth/auth.service.ts:453-479 | Run alone, the steps of a consumption lead where the method does: the newest redeemable row is consumed, or nothing changes |
| AuthTokens.IssueAlone | src/modules/auth/auth.service.ts:419-444 | Run alone, the steps of an issue supersede the unused rows of the user and purpose and append a token that lasts from then on |
| AuthTokens.ConsumedByItsSecret | src/modules/auth/auth.service.ts:462-473 | In every interleaving a row is consumed only after its secret was presented before it expired |
| CatalogPaging.List | src/modules/catalog/catalog.service.ts:52-109 | A page is a prefix of the matching rows: as many as were asked for, at most 100, and 20 if nothing was asked; there is more exactly when matching rows remain, and then the cursor is the last row with its timestamp cut to the millisecond |
| CatalogPaging.MatchingExactly | src/modules/catalog/catalog.service.ts:60-95 | The matching rows are the wanted ones beyond the cursor and no others, in order of timestamp and id, ascending or descending |
| CatalogPaging.OrderBySorts | src/modules/catalog/catalog.service.ts:95-95 | The order is strict and loses no row |
| Sorting.FilterSort | src/modules/catalog/catalog.service.ts:84-95 | Restricting to the rows past a cursor and then sorting is restricting the sorted list |
| CatalogPaging.CleanCutMeans | src/modules/catalog/catalog.service.ts:103-109 | When the millisecond cursor separates two neighbouring rows, in terms of their timestamps |
| CatalogPaging.WholeMillisecondTables | src/modules/catalog/catalog.service.ts:103-109 | Timestamps in whole milliseconds are always cut cleanly, for any filter, page size and direction |
| CatalogWalks.FollowCursor | src/modules/catalog/catalog.service.ts:52-109 | A client that follows the cursor for any number of requests has exactly the walk that the theorems below are about |
| CatalogWalks.DescendingEnds | src/modules/catalog/catalog.service.ts:84-109 | Newest first, for any timestamps, a walk ends and at every moment has rows of the table in strict order, none twice |
| CatalogWalks.FollowingIsExact | src/modules/catalog/catalog.service.ts:84-109 | In either direction, whether or not the walk ends: a client ever has exactly the filtered rows in order if and only if every page is cut cleanly |
| CatalogWalks.AscendingRepeats | src/modules/catalog/catalog.service.ts:84-109 | Oldest first, a page that is not cut cleanly is followed by one that begins with a row already seen |
| CatalogWalks.EndsSoonOrNever | src/modules/catalog/catalog.service.ts:84-109 | In either direction a walk ends if and only if it has ended after one request more than there are rows; otherwise it comes back to a row and goes round for ever |
| CatalogWalks.SparseWalkEnds | src/modules/catalog/catalog.service.ts:84-109 | Oldest first, for any timestamps, a walk ends when no full page of the list lies within one millisecond |
| CatalogWalks.CrowdedWalkNeverEnds | src/modules/catalog/catalog.service.ts:84-109 | It never ends when one does whose first row is later than its millisecond |
| CatalogWalks.AscendingEndsExactly | src/modules/catalog/catalog.service.ts:84-109 | Where no timestamp is a whole millisecond, it ends if and only if no full page lies within one millisecond |
| CatalogWalks.AscendingMayNeverEnd | src/modules/catalog/catalog.service.ts:103-109 | Two rows later in their milliseconds, oldest first and one at a time: the first row for ever |
| CatalogWalks.DescendingMaySkip | src/modules/catalog/catalog.service.ts:103-109 | Two rows within one millisecond, newest first and one at a time: the second is never shown |
| Translations.LocalesKeepWhatTheyWereGiven | src/modules/catalog/catalog.service.ts:247-252 | After any history of edits a locale other than English says what it was last given |
| Translations.SomeTitleIsShown | src/modules/catalog/catalog.service.ts:287-301 | No history leaves a locale without a title to show |
| Translations.FaithfulStep | src/modules/catalog/catalog.service.ts:254-263 | An edit keeps the title equal to its English mirror exactly when it is faithful |
| Translations.MirrorKeptExactly | src/modules/catalog/catalog.service.ts:348-369 | The mirror holds throughout a history exactly when the creation and every edit are faithful |
| Translations.PlainEditsKeepTheMirror | src/modules/catalog/catalog.service.ts:141-267 | Histories that never give English by hand keep title and mirror equal, and show that title |
| Translations.ClearingEnglishBreaksTheMirror | src/modules/catalog/catalog.service.ts:247-263 | Clearing the English block of a certificate created with a title parts the title from its mirror |
| Translations.ReplacesExactly | src/modules/catalog/catalog.service.ts:348-369 | An update with translations replaces the whole column exactly when there was no other locale than the given ones and English |
| Translations.UpdateMayMerge | src/modules/catalog/catalog.service.ts:348-369 | An update that gives Turkish keeps the French there was |
| Translations.RenameReaches | src/common/i18n/types.ts:58-76 | A new canonical title is shown in every locale without a title of its own, and in no other |
| Translations.TitleShown | src/common/i18n/types.ts:58-76 | The locale's own title is shown, else the English, else the canonical one; the fallback is reported exactly when English is used for another locale |
| Translations.DescriptionShown | src/common/i18n/types.ts:58-76 | The same of descriptions, of which there may be none |
| Translations.CreatedColumns | src/modules/catalog/catalog.service.ts:152-170 | Every column of a new certificate, with `USD` and active as defaults, and its texts |
| Translations.UpdatedColumns | src/modules/catalog/catalog.service.ts:196-221 | Every column after an update: as sent, or as it was; the texts follow when one of theirs was sent |
| Translations.TranslatedColumns | src/modules/catalog/catalog.service.ts:247-263 | The given locales replace theirs, a non-empty English title becomes the canonical one, and nothing else changes |
| CatalogEditing.CatalogService.BuildTranslations | src/modules/catalog/catalog.service.ts:348-369 | The loop layers the given locales over the existing ones and mirrors English unless it was given |
| CatalogEditing.CatalogService.Create | src/modules/catalog/catalog.service.ts:141-173 | A new row with every column as sent or by default, or a conflict when its program code is taken; program codes stay distinct |
| CatalogEditing.CatalogService.Update | src/modules/catalog/catalog.service.ts:175-228 | Not found, conflict, or exactly the columns that were sent and the texts that follow from them; program codes stay distinct |
| CatalogEditing.CatalogService.Patch | src/modules/catalog/catalog.service.ts:196-221 | The fields that were sent, and the translations that follow from them |
| CatalogEditing.CatalogService.UpdateTranslations | src/modules/catalog/catalog.service.ts:230-267 | One unsupported key rejects the request and changes nothing; otherwise the given locales replace those of the row |
| CatalogEditing.CatalogService.SoftDelete | src/modules/catalog/catalog.service.ts:269-276 | Only the active flag changes |
| HtmlEscape.EscapeIsPerChar | src/modules/mail/template.renderer.ts:37-44 | The five replacements in a row are one map on characters |
| HtmlEscape.EscapeRoundTrip | src/modules/mail/template.renderer.ts:37-44 | Reading the entities back gives the original text |
| HtmlEscape.EscapeIsHarmless | src/modules/mail/template.renderer.ts:37-44 | No angle bracket and no quote is left |
| HtmlEscape.EscapesEachCharacter | src/modules/mail/template.renderer.ts:37-44 | The entity that each of the five characters becomes, wherever it is; every other character stays |
| TemplatePieces.BlocksOnPieces | src/modules/mail/template.renderer.ts:25-33 | On the text of any tags, balanced or not, a block pass replaces each opening and what follows up to the next closing of its tag, and nothing else |
| TemplatePieces.TokensOnPieces | src/modules/mail/template.renderer.ts:46-57 | On the text of any tags the token pass replaces exactly the tokens, and never looks at a value again |
| TemplatePieces.RenderOnPieces | src/modules/mail/template.renderer.ts:77-83 | The three passes on any text of tags |
| TemplateTrees.PassDecides | src/modules/mail/template.renderer.ts:23-35 | On a tree without a block inside a block of its tag, a block pass decides the blocks of its tag |
| TemplateTrees.DecideKeepsMeaning | src/modules/mail/template.renderer.ts:23-35 | Deciding blocks does not change what the template stands for |
| TemplateTrees.RenderEvaluates | src/modules/mail/template.renderer.ts:46-83 | Without a block inside a block of its tag, rendering the text is evaluating the tree, for all values |
| TemplateTrees.NestedIfShows | src/modules/mail/template.renderer.ts:25-28 | With an `#if` inside an `#if` and nothing set, a closing tag stays in the output |
| TemplateTrees.NestedUnlessShows | src/modules/mail/template.renderer.ts:30-33 | With an `#unless` inside an `#unless` and everything set, one does |
| TemplateTrees.RendersExactlyWhenApart | src/modules/mail/template.renderer.ts:23-57 | Rendering agrees with evaluation for all values if and only if no block lies inside a block of its tag |
| TemplateWitness.NestedIfLeavesItsTail | src/modules/mail/template.renderer.ts:25-28 | `{{#if a}}{{#if b}}{{/if}}{{/if}}` with nothing set is rendered as `{{/if}}` |
| TemplateTags.WhichValuesDrop | src/modules/mail/template.renderer.ts:16-21 | A block is dropped for nothing, false, zero, the empty text and the text `false`, and for no other value |
| TemplateTags.TokenShows | src/modules/mail/template.renderer.ts:46-57 | A token becomes the text of its value, escaped where that is asked for, or nothing |
| TemplateTags.IfShows | src/modules/mail/template.renderer.ts:25-28 | An `#if` block is its body or nothing, by the value alone |
| TemplateTags.UnlessShows | src/modules/mail/template.renderer.ts:30-33 | An `#unless` block, the other way round |
| Learning.TreeCounts | src/modules/learning/learning.service.ts:240-258 | Whatever is counted over the tree is counted over the lessons, each under one module |
| Learning.CurriculumCounts | src/modules/learning/learning.service.ts:214-258 | The tree counts exactly the active lessons of active modules of the certificate |
| Learning.RowCounts | src/modules/learning/learning.service.ts:394-411 | So does an entry of the progress summary |
| Learning.ViewsAgree | src/modules/learning/learning.service.ts:214-258 | The summary has an entry for a certificate whose tree is served, and it counts the lessons and the completed ones of the tree, whatever order the queries return |
| Learning.CurriculumShows | src/modules/learning/learning.service.ts:240-258 | Each module is shown with its own id and position and exactly the lessons that name it, each marked completed exactly when the user has progress for it |
| Learning.EachLessonOnce | src/modules/learning/learning.service.ts:240-258 | The tree shows each active lesson of an active module once, and no other |
| Learning.SummaryListsPurchases | src/modules/learning/learning.service.ts:371-419 | The summary has an entry for a certificate exactly when the user has bought it |
| Learning.CurriculumNeedsActive | src/modules/learning/learning.service.ts:208-212 | The tree of a certificate that the user has bought is served exactly when it is active |
| Learning.CurriculumAccess | src/modules/learning/learning.service.ts:208-212 | Not found, forbidden and served, each exactly when, by the certificates and the purchases |
| Learning.SameCertificatesExactly | src/modules/learning/learning.service.ts:371-419 | The two views have the same certificates if and only if no purchased one is inactive |
| Learning.ListedButNotServed | src/modules/learning/learning.service.ts:208-212 | One inactive purchased certificate: an entry in the summary, no tree |
| Learning.HundredExactly | src/modules/learning/learning.service.ts:412-415 | 100 percent is shown exactly when the missing lessons are at most one in two hundred |
| Learning.HundredMeansAll | src/modules/learning/learning.service.ts:412-415 | Below 200 lessons that means all of them; 199 of 200 is shown as 100 |
| Learning.PercentIsNearest | src/modules/learning/learning.service.ts:412-415 | The percentage is the nearest whole number, a half counting up, and 0 without lessons |
| Learning.CompletionCountsOnce | src/modules/learning/learning.service.ts:349-355 | Completing a lesson adds one to the count of the certificate whose active module holds it, and to no other |
| Learning.LearningService.MarkComplete | src/modules/learning/learning.service.ts:325-363 | Not found, forbidden, or recorded once: marking again reports the first time and changes nothing |
| CertificateNumbers.WrittenAlike | src/database/migrations/1747000000000-InitialSchema.ts:781-781 | Two numbers are written alike exactly when their leading digits are the same |
| CertificateNumbers.IdsClashExactly | src/database/migrations/1747000000000-InitialSchema.ts:781-781 | Two ids are equal exactly when program, year and leading six digits are |
| CertificateNumbers.IdsAreDistinct | src/database/migrations/1747000000000-InitialSchema.ts:773-782 | Over any run of inserts across programs, years and rollbacks, the ids written are pairwise distinct while numbers have six digits |
| CertificateNumbers.NeverADuplicate | src/database/migrations/1747000000000-InitialSchema.ts:777-782 | Until then an insert fails exactly when its program has no sequence |
| CertificateNumbers.YearlyCapacity | src/database/migrations/1747000000000-InitialSchema.ts:777-782 | The first n certificates of a program in one year can all be inserted if and only if n is at most 999,999 |
| CertificateNumbers.TheMillionthFails | src/database/migrations/1747000000000-InitialSchema.ts:781-781 | The millionth is refused as a duplicate of the hundred-thousandth |
| CertificateNumbers.IdReads | src/database/migrations/1747000000000-InitialSchema.ts:781-781 | An id is `IOS-`, the program, four digits that read as the year and six that read as the number while it has six, set apart by dashes |
| CertificateNumbers.FirstTwoIds | src/database/migrations/1747000000000-InitialSchema.ts:777-781 | The first certificate of a program has number 000001 and the next draws two, however the program is cased |
| CertificateNumbers.IssuedCertificates.SetCertSequence | src/database/migrations/1747000000000-InitialSchema.ts:762-785 | The trigger draws one number, for good, and writes it into the id; without a sequence nothing changes |
| CertificateNumbers.IssuedCertificates.InsertRow | src/database/migrations/1747000000000-InitialSchema.ts:786-790 | The trigger and the unique index together |

## Left out

- Redis faults other than the failed start: lost notifications, eviction, restarts, and answers that are not JSON.
- Database faults, row-level security and connection handling; each transaction is one atomic step.
- Loading the exam for scoring is part of the commit step in the protocol; it reads nothing that the protocol changes.
- `getSessionStatus`, `hasGrace` and the socket notifications only read or announce.
- Signing and checking of JSON web tokens, random bytes, password hashing, and sending of mail.
- In the rotation protocol, password changes and resets are the revoke-all that ends them.
- Registration, e-mail verification and login are only the token operations they end in.
- CatalogPaging.List: the filter is an arbitrary condition on rows, and a cursor is the pair it encodes; malformed
  cursors and the base64url text are not modelled.
- Learning: the order of modules and lessons, titles, videos, and the administrative methods, whose translation
  layering is that of the catalog.
- CertificateNumbers.IssuedCertificates.SetCertSequence: `LOWER` is modelled for ASCII letters, and names that would
  need quoting as a sequence name are taken as they are.
- Values named like properties of every JavaScript object, the reading of template files, and the `currentYear`
  variable that is added to all templates.
- Concurrent `markComplete` calls, one of which the unique index refuses.
- Deleting users, exams or certificates while a run is in progress.
