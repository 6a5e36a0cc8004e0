/**
 * The answer handlers: an approved expert answers a question, the author or
 * an administrator edits or removes the answer, and the question's owner or
 * an administrator accepts one answer, which clears every other acceptance
 * on that question and marks the question resolved.
 */
module AnswerController {
  import opened Common
  import opened Seqs
  import opened Entities
  import opened QuestionEntity
  import opened Store
  import AnswerRepository

  // The messages the handlers answer with; a failure message is the prefix
  // the exception's own message is appended to.
  const UserNotFound: string := "User not found"
  const ExpertNotApproved: string := "Expert account not approved"
  const QuestionNotFound: string := "Question not found"
  const CreateFailed: string := "Failed to create answer: "
  const UpdateFailed: string := "Failed to update answer: "
  const AcceptFailed: string := "Failed to accept answer: "
  const DeleteFailed: string := "Failed to delete answer: "
  const NotAuthorizedToUpdate: string := "Not authorized to update this answer"
  const NotAuthorizedToAccept: string := "Not authorized to accept this answer"
  const NotAuthorizedToDelete: string := "Not authorized to delete this answer"
  const Deleted: string := "Answer deleted successfully"

  const CreateRoles: set<Role> := {Expert}
  const EditRoles: set<Role> := {Expert, Admin}
  const AcceptRoles: set<Role> := {Farmer, Admin}

  datatype CreateAnswerRequest = CreateAnswerRequest(questionId: Option<nat>, content: Option<string>)
  datatype UpdateAnswerRequest = UpdateAnswerRequest(content: Option<string>, isApproved: Option<bool>)

  /** The answer table once `target` is accepted: the target carries the
      flag and every other answer of its question has lost it. */
  function AcceptInAnswers(answers: map<nat, Answer>, target: nat): map<nat, Answer>
    requires target in answers
  {
    map k | k in answers ::
      if answers[k].question == answers[target].question
      then answers[k].(isAccepted := k == target)
      else answers[k]
  }

  /** The question table once an answer of `question` is accepted: the
      question is resolved. The update hook stamps the time only when the
      flag actually changed, since otherwise the entity is not dirty. */
  function ResolveQuestion(questions: map<nat, QuestionRow>, question: nat, now: int): map<nat, QuestionRow>
    requires question in questions
  {
    if questions[question].isResolved then questions
    else questions[question := questions[question].(isResolved := true, updatedAt := now)]
  }

  /** `createAnswer`: only an approved expert may answer, and only an
      existing question. The new answer is approved, not accepted and has
      no votes. */
  method CreateAnswer(db: Database, auth: Authentication, request: CreateAnswerRequest, now: int)
    returns (r: Result<Answer>)
    requires db.Valid()
    modifies db`answers, db`nextAnswerId
    ensures db.Valid()
    ensures !HasAnyRole(auth, CreateRoles) ==> r == Err(Forbidden)
    ensures HasAnyRole(auth, CreateRoles) && CurrentUser(old(db.users), auth).None?
      ==> r == Err(Rejected(UserNotFound))
    ensures HasAnyRole(auth, CreateRoles) && CurrentUser(old(db.users), auth).Some?
      && !CurrentUser(old(db.users), auth).value.isApproved
      ==> r == Err(Rejected(ExpertNotApproved))
    ensures HasAnyRole(auth, CreateRoles) && CurrentUser(old(db.users), auth).Some?
      && CurrentUser(old(db.users), auth).value.isApproved && request.questionId.None?
      ==> r == Err(Failed(CreateFailed))
    ensures HasAnyRole(auth, CreateRoles) && CurrentUser(old(db.users), auth).Some?
      && CurrentUser(old(db.users), auth).value.isApproved
      && request.questionId.Some? && request.questionId.value !in old(db.questions)
      ==> r == Err(Rejected(QuestionNotFound))
    ensures r.Ok? <==>
      && HasAnyRole(auth, CreateRoles)
      && CurrentUser(old(db.users), auth).Some? && CurrentUser(old(db.users), auth).value.isApproved
      && request.questionId.Some? && request.questionId.value in db.questions
    ensures r.Err? ==> db.answers == old(db.answers) && db.nextAnswerId == old(db.nextAnswerId)
    ensures r.Ok? ==>
      && r.value.id !in old(db.answers)
      && db.answers == old(db.answers)[r.value.id := r.value]
      && r.value.question == request.questionId.value
      && r.value.expert == CurrentUser(old(db.users), auth).value.id
      && r.value.content == request.content
      && r.value.isApproved && !r.value.isAccepted
      && r.value.upvotes == 0 && r.value.downvotes == 0 && r.value.createdAt == now
  {
    if !HasAnyRole(auth, CreateRoles) {
      return Err(Forbidden);
    }
    var expert := CurrentUser(db.users, auth);
    if expert.None? {
      return Err(Rejected(UserNotFound));
    }
    if !expert.value.isApproved {
      return Err(Rejected(ExpertNotApproved));
    }
    if request.questionId.None? {
      // `findById(null)` throws before the lookup.
      return Err(Failed(CreateFailed));
    }
    if request.questionId.value !in db.questions {
      return Err(Rejected(QuestionNotFound));
    }
    var answer := Answer(db.nextAnswerId, request.questionId.value, expert.value.id, request.content,
                         true, false, 0, 0, now);
    db.answers := db.answers[answer.id := answer];
    db.nextAnswerId := db.nextAnswerId + 1;
    return Ok(answer);
  }

  /** `updateAnswer`: the author or an administrator replaces the content
      and the approval flag, each only when the request carries it. */
  method UpdateAnswer(db: Database, auth: Authentication, id: nat, request: UpdateAnswerRequest)
    returns (r: Result<Answer>)
    requires db.Valid()
    modifies db`answers
    ensures db.Valid()
    ensures !HasAnyRole(auth, EditRoles) ==> r == Err(Forbidden)
    ensures HasAnyRole(auth, EditRoles) && id !in old(db.answers) ==> r == Err(NotFound)
    ensures HasAnyRole(auth, EditRoles) && id in old(db.answers) && CurrentUser(old(db.users), auth).None?
      ==> r == Err(Failed(UpdateFailed))
    ensures HasAnyRole(auth, EditRoles) && id in old(db.answers) && CurrentUser(old(db.users), auth).Some?
      && !OwnerOrAdmin(CurrentUser(old(db.users), auth).value, old(db.answers)[id].expert)
      ==> r == Err(Rejected(NotAuthorizedToUpdate))
    ensures r.Ok? <==>
      && HasAnyRole(auth, EditRoles) && id in old(db.answers)
      && CurrentUser(old(db.users), auth).Some?
      && OwnerOrAdmin(CurrentUser(old(db.users), auth).value, old(db.answers)[id].expert)
    ensures r.Err? ==> db.answers == old(db.answers)
    ensures r.Ok? ==>
      && db.answers == old(db.answers)[id := r.value]
      && r.value.content == (if request.content.Some? then request.content else old(db.answers)[id].content)
      && r.value.isApproved == (if request.isApproved.Some? then request.isApproved.value else old(db.answers)[id].isApproved)
      && r.value == old(db.answers)[id].(content := r.value.content, isApproved := r.value.isApproved)
  {
    if !HasAnyRole(auth, EditRoles) {
      return Err(Forbidden);
    }
    if id !in db.answers {
      return Err(NotFound);
    }
    var answer := db.answers[id];
    var currentUser := CurrentUser(db.users, auth);
    if currentUser.None? {
      // Dereferencing the missing user throws.
      return Err(Failed(UpdateFailed));
    }
    if !OwnerOrAdmin(currentUser.value, answer.expert) {
      return Err(Rejected(NotAuthorizedToUpdate));
    }
    if request.content.Some? {
      answer := answer.(content := request.content);
    }
    if request.isApproved.Some? {
      answer := answer.(isApproved := request.isApproved.value);
    }
    db.answers := db.answers[id := answer];
    return Ok(answer);
  }

  /** `acceptAnswer`: the question's owner or an administrator accepts one
      answer. Every answer of the question is first unaccepted, one by one,
      then the question is resolved and the target accepted. */
  method AcceptAnswer(db: Database, auth: Authentication, id: nat, now: int)
    returns (r: Result<Answer>)
    requires db.Valid()
    modifies db`answers, db`questions
    ensures db.Valid()
    ensures !HasAnyRole(auth, AcceptRoles) ==> r == Err(Forbidden)
    ensures HasAnyRole(auth, AcceptRoles) && id !in old(db.answers) ==> r == Err(NotFound)
    ensures HasAnyRole(auth, AcceptRoles) && id in old(db.answers) && CurrentUser(old(db.users), auth).None?
      ==> r == Err(Failed(AcceptFailed))
    ensures HasAnyRole(auth, AcceptRoles) && id in old(db.answers) && CurrentUser(old(db.users), auth).Some?
      && !OwnerOrAdmin(CurrentUser(old(db.users), auth).value, old(db.questions)[old(db.answers)[id].question].farmer)
      ==> r == Err(Rejected(NotAuthorizedToAccept))
    ensures r.Ok? <==>
      && HasAnyRole(auth, AcceptRoles) && id in old(db.answers)
      && CurrentUser(old(db.users), auth).Some?
      && OwnerOrAdmin(CurrentUser(old(db.users), auth).value, old(db.questions)[old(db.answers)[id].question].farmer)
    ensures r.Err? ==> db.answers == old(db.answers) && db.questions == old(db.questions)
    ensures r.Ok? ==>
      && db.answers == AcceptInAnswers(old(db.answers), id)
      && db.questions == ResolveQuestion(old(db.questions), old(db.answers)[id].question, now)
      && r.value == db.answers[id]
  {
    if !HasAnyRole(auth, AcceptRoles) {
      return Err(Forbidden);
    }
    if id !in db.answers {
      return Err(NotFound);
    }
    var answer := db.answers[id];
    var currentUser := CurrentUser(db.users, auth);
    if currentUser.None? {
      return Err(Failed(AcceptFailed));
    }
    var row := db.questions[answer.question];
    if !OwnerOrAdmin(currentUser.value, row.farmer) {
      return Err(Rejected(NotAuthorizedToAccept));
    }

    var answers, questions, accepted := Accept(db.answers, db.questions, id, now, db.nextQuestionId, db.nextAnswerId);
    AcceptKeepsSchema(db.questions, db.answers, id, now, db.nextQuestionId, db.nextAnswerId);
    assert SchemaHolds(db.users, questions, answers, db.listings, db.nextQuestionId, db.nextAnswerId, db.nextListingId);
    db.answers, db.questions := answers, questions;
    return Ok(accepted);
  }

  /** The acceptance itself, once the caller is authorized: every answer of
      the question is unaccepted, the question is resolved and saved, and
      the target is accepted and saved. */
  method Accept(answers: map<nat, Answer>, questions: map<nat, QuestionRow>, id: nat, now: int,
                nextQuestionId: nat, nextAnswerId: nat)
    returns (newAnswers: map<nat, Answer>, newQuestions: map<nat, QuestionRow>, accepted: Answer)
    requires QuestionsWellFormed(questions, nextQuestionId)
    requires AnswersWellFormed(answers, questions, nextAnswerId)
    requires id in answers
    ensures newAnswers == AcceptInAnswers(answers, id)
    ensures newQuestions == ResolveQuestion(questions, answers[id].question, now)
    ensures accepted == newAnswers[id]
  {
    var answer := answers[id];
    var cleared := UnacceptAll(answers, nextAnswerId, answer.question);
    newQuestions := MarkResolved(questions, answer.question, now);
    accepted := answer.(isAccepted := true);
    ClearThenAccept(answers, cleared, id);
    newAnswers := cleared[id := accepted];
  }

  /** The loop of `acceptAnswer`: every answer `findByQuestion` returns
      for the question has its accepted flag cleared and is saved. */
  method UnacceptAll(answers: map<nat, Answer>, nextId: nat, question: nat) returns (cleared: map<nat, Answer>)
    requires forall k :: k in answers ==> answers[k].id == k && k < nextId
    ensures cleared.Keys == answers.Keys
    ensures forall k :: k in cleared ==>
      cleared[k] == if answers[k].question == question then answers[k].(isAccepted := false) else answers[k]
  {
    var allAnswers := AnswerRepository.FindByQuestion(Rows(answers, nextId), question);
    ScanOfQuestion(answers, nextId, question);
    cleared := UnacceptEach(answers, allAnswers);
  }

  /** The loop itself: each listed answer, taken as it was read, is saved
      with its accepted flag cleared. */
  method UnacceptEach(answers: map<nat, Answer>, rows: seq<Answer>) returns (cleared: map<nat, Answer>)
    requires forall j :: 0 <= j < |rows| ==> rows[j].id in answers && answers[rows[j].id] == rows[j]
    ensures cleared.Keys == answers.Keys
    ensures forall k :: k in cleared ==>
      cleared[k] == if Listed(rows, k) then answers[k].(isAccepted := false) else answers[k]
  {
    cleared := answers;
    for i := 0 to |rows|
      invariant cleared.Keys == answers.Keys
      invariant forall k :: k in cleared ==>
        cleared[k] == if Listed(rows[..i], k) then answers[k].(isAccepted := false) else answers[k]
    {
      ListedExtend(rows, i);
      var a := rows[i].(isAccepted := false);
      cleared := cleared[a.id := a];
    }
    assert rows[..|rows|] == rows;
  }

  /** The question half of `acceptAnswer`: the managed question is marked
      resolved and saved. Its update hook runs and the row is written only
      when the flag actually changed. */
  method MarkResolved(questions: map<nat, QuestionRow>, key: nat, now: int) returns (saved: map<nat, QuestionRow>)
    requires key in questions && questions[key].id == key && Constrained(questions[key])
    ensures saved == ResolveQuestion(questions, key, now)
  {
    var row := questions[key];
    var question := new Question.Load(row);
    question.isResolved := true;
    saved := questions;
    if question.DiffersFrom(row) {
      question.OnUpdate(now);
      assert question.RowAt(key) == row.(isResolved := true, updatedAt := now);
      saved := questions[key := question.RowAt(key)];
    }
  }

  /** `deleteAnswer`: the author or an administrator removes the answer. */
  method DeleteAnswer(db: Database, auth: Authentication, id: nat) returns (r: Result<string>)
    requires db.Valid()
    modifies db`answers
    ensures db.Valid()
    ensures !HasAnyRole(auth, EditRoles) ==> r == Err(Forbidden)
    ensures HasAnyRole(auth, EditRoles) && id !in old(db.answers) ==> r == Err(NotFound)
    ensures HasAnyRole(auth, EditRoles) && id in old(db.answers) && CurrentUser(old(db.users), auth).None?
      ==> r == Err(Failed(DeleteFailed))
    ensures HasAnyRole(auth, EditRoles) && id in old(db.answers) && CurrentUser(old(db.users), auth).Some?
      && !OwnerOrAdmin(CurrentUser(old(db.users), auth).value, old(db.answers)[id].expert)
      ==> r == Err(Rejected(NotAuthorizedToDelete))
    ensures r.Ok? <==>
      && HasAnyRole(auth, EditRoles) && id in old(db.answers)
      && CurrentUser(old(db.users), auth).Some?
      && OwnerOrAdmin(CurrentUser(old(db.users), auth).value, old(db.answers)[id].expert)
    ensures r.Err? ==> db.answers == old(db.answers)
    ensures r.Ok? ==> db.answers == old(db.answers) - {id} && r.value == Deleted
  {
    if !HasAnyRole(auth, EditRoles) {
      return Err(Forbidden);
    }
    if id !in db.answers {
      return Err(NotFound);
    }
    var answer := db.answers[id];
    var currentUser := CurrentUser(db.users, auth);
    if currentUser.None? {
      return Err(Failed(DeleteFailed));
    }
    if !OwnerOrAdmin(currentUser.value, answer.expert) {
      return Err(Rejected(NotAuthorizedToDelete));
    }
    db.answers := db.answers - {id};
    return Ok(Deleted);
  }

  /** Some row of `rows` has id `k`. */
  predicate Listed(rows: seq<Answer>, k: nat)
  {
    exists j :: 0 <= j < |rows| && rows[j].id == k
  }

  lemma ListedExtend(rows: seq<Answer>, i: nat)
    requires i < |rows|
    ensures forall k :: Listed(rows[..i + 1], k) <==> Listed(rows[..i], k) || rows[i].id == k
  {
    forall k
      ensures Listed(rows[..i + 1], k) <==> Listed(rows[..i], k) || rows[i].id == k
    {
      if Listed(rows[..i + 1], k) {
        var j :| 0 <= j < i + 1 && rows[..i + 1][j].id == k;
        if j < i {
          assert rows[..i][j] == rows[j];
        }
      }
      if Listed(rows[..i], k) {
        var j :| 0 <= j < i && rows[..i][j].id == k;
        assert rows[..i + 1][j] == rows[j];
      }
      assert rows[..i + 1][i] == rows[i];
    }
  }

  /** The rows `findByQuestion` returns are the stored answers of the
      question, each under its own id, and every such answer is among them. */
  lemma ScanOfQuestion(answers: map<nat, Answer>, n: nat, question: nat)
    requires forall k :: k in answers ==> answers[k].id == k && k < n
    ensures var all := AnswerRepository.FindByQuestion(Rows(answers, n), question);
      && (forall j :: 0 <= j < |all| ==>
            all[j].id in answers && answers[all[j].id] == all[j] && all[j].question == question)
      && (forall k :: k in answers ==> (Listed(all, k) <==> answers[k].question == question))
  {
    var rows := Rows(answers, n);
    var all := AnswerRepository.FindByQuestion(rows, question);
    forall j | 0 <= j < |all|
      ensures all[j].id in answers && answers[all[j].id] == all[j] && all[j].question == question
    {
      assert all[j] in multiset(all);
      assert all[j] in rows;
    }
    forall k | k in answers
      ensures Listed(all, k) <==> answers[k].question == question
    {
      if answers[k].question == question {
        assert answers[k] in rows;
        assert answers[k] in multiset(rows);
        assert answers[k] in multiset(all);
        var j :| 0 <= j < |all| && all[j] == answers[k];
      }
    }
  }

  /** An edit that adds only unaccepted answers and never moves an answer
      to another question nor changes its acceptance keeps both rules. */
  lemma {:induction false} AcceptanceKept(
    questions: map<nat, QuestionRow>, before: map<nat, Answer>, after: map<nat, Answer>)
    requires forall k :: k in after && k in before ==>
      after[k].question == before[k].question && after[k].isAccepted == before[k].isAccepted
    requires forall k :: k in after && k !in before ==> !after[k].isAccepted
    ensures OneAcceptedPerQuestion(before) ==> OneAcceptedPerQuestion(after)
    ensures AcceptedImpliesResolved(questions, before) ==> AcceptedImpliesResolved(questions, after)
  {
    if OneAcceptedPerQuestion(before) {
      forall a, b | a in after && b in after && after[a].question == after[b].question
        && after[a].isAccepted && after[b].isAccepted
        ensures a == b
      {
        assert a in before && b in before;
      }
    }
    if AcceptedImpliesResolved(questions, before) {
      forall a | a in after && after[a].isAccepted && after[a].question in questions
        ensures questions[after[a].question].isResolved
      {
        assert a in before;
      }
    }
  }

  /** The unaccept loop followed by the acceptance of the target yields the
      table `AcceptInAnswers` describes. */
  lemma ClearThenAccept(before: map<nat, Answer>, cleared: map<nat, Answer>, target: nat)
    requires target in before && cleared.Keys == before.Keys
    requires forall k :: k in cleared ==>
      cleared[k] == if before[k].question == before[target].question
                    then before[k].(isAccepted := false)
                    else before[k]
    ensures cleared[target := before[target].(isAccepted := true)] == AcceptInAnswers(before, target)
  {
    var after := cleared[target := before[target].(isAccepted := true)];
    forall k | k in after
      ensures after[k] == AcceptInAnswers(before, target)[k]
    {
      if k != target {
        assert after[k] == cleared[k];
      }
    }
  }

  /** `createAnswer` adds an answer that is not accepted: both rules hold
      afterwards if they held before. */
  lemma CreateKeepsRules(questions: map<nat, QuestionRow>, answers: map<nat, Answer>, created: Answer)
    requires created.id !in answers && !created.isAccepted
    ensures OneAcceptedPerQuestion(answers) ==> OneAcceptedPerQuestion(answers[created.id := created])
    ensures AcceptedImpliesResolved(questions, answers) ==> AcceptedImpliesResolved(questions, answers[created.id := created])
  {
    AcceptanceKept(questions, answers, answers[created.id := created]);
  }

  /** `updateAnswer` changes neither the question an answer belongs to nor
      its accepted flag: both rules are kept. */
  lemma UpdateKeepsRules(questions: map<nat, QuestionRow>, answers: map<nat, Answer>, id: nat,
                         content: Option<string>, isApproved: bool)
    requires id in answers
    ensures var edited := answers[id := answers[id].(content := content, isApproved := isApproved)];
      && (OneAcceptedPerQuestion(answers) ==> OneAcceptedPerQuestion(edited))
      && (AcceptedImpliesResolved(questions, answers) ==> AcceptedImpliesResolved(questions, edited))
  {
    AcceptanceKept(questions, answers, answers[id := answers[id].(content := content, isApproved := isApproved)]);
  }

  /** `deleteAnswer` only removes a row: both rules are kept. */
  lemma DeleteKeepsRules(questions: map<nat, QuestionRow>, answers: map<nat, Answer>, id: nat)
    ensures OneAcceptedPerQuestion(answers) ==> OneAcceptedPerQuestion(answers - {id})
    ensures AcceptedImpliesResolved(questions, answers) ==> AcceptedImpliesResolved(questions, answers - {id})
  {
    AcceptanceKept(questions, answers, answers - {id});
  }

  /** Acceptance keeps the schema's guarantees on questions and answers. */
  lemma AcceptKeepsSchema(questions: map<nat, QuestionRow>, answers: map<nat, Answer>, target: nat, now: int,
                          nextQuestionId: nat, nextAnswerId: nat)
    requires QuestionsWellFormed(questions, nextQuestionId)
    requires AnswersWellFormed(answers, questions, nextAnswerId)
    requires target in answers
    ensures QuestionsWellFormed(ResolveQuestion(questions, answers[target].question, now), nextQuestionId)
    ensures AnswersWellFormed(AcceptInAnswers(answers, target),
                              ResolveQuestion(questions, answers[target].question, now), nextAnswerId)
  {
  }

  /** After acceptance the target is the one accepted answer of its
      question, and answers of other questions are as they were. */
  lemma AcceptSelectsTarget(answers: map<nat, Answer>, target: nat)
    requires target in answers
    ensures AcceptInAnswers(answers, target).Keys == answers.Keys
    ensures AcceptInAnswers(answers, target)[target].isAccepted
    ensures forall k :: k in answers && answers[k].question == answers[target].question ==>
      (AcceptInAnswers(answers, target)[k].isAccepted <==> k == target)
    ensures AtMostOneAccepted(AcceptInAnswers(answers, target), answers[target].question)
    ensures forall k :: k in answers && answers[k].question != answers[target].question ==>
      AcceptInAnswers(answers, target)[k] == answers[k]
    ensures forall k :: k in answers ==>
      AcceptInAnswers(answers, target)[k] == answers[k].(isAccepted := AcceptInAnswers(answers, target)[k].isAccepted)
  {
  }

  /** Accepting a second answer of the same question moves the flag: the
      result is as if only the second had been accepted. */
  lemma {:induction false} AcceptThenAccept(answers: map<nat, Answer>, first: nat, second: nat)
    requires first in answers && second in answers
    requires answers[first].question == answers[second].question
    ensures second in AcceptInAnswers(answers, first)
    ensures AcceptInAnswers(AcceptInAnswers(answers, first), second) == AcceptInAnswers(answers, second)
  {
    var once := AcceptInAnswers(answers, first);
    assert once[second].question == answers[second].question;
    var twice := AcceptInAnswers(once, second);
    forall k | k in answers
      ensures twice[k] == AcceptInAnswers(answers, second)[k]
    {
      assert once[k].question == answers[k].question;
    }
  }

  /** Accepting the same answer twice is the same as accepting it once. */
  lemma AcceptIdempotent(answers: map<nat, Answer>, target: nat)
    requires target in answers
    ensures target in AcceptInAnswers(answers, target)
    ensures AcceptInAnswers(AcceptInAnswers(answers, target), target) == AcceptInAnswers(answers, target)
  {
    AcceptThenAccept(answers, target, target);
  }

  /** Resolving an already resolved question changes nothing. */
  lemma ResolveIdempotent(questions: map<nat, QuestionRow>, question: nat, first: int, second: int)
    requires question in questions
    ensures question in ResolveQuestion(questions, question, first)
    ensures ResolveQuestion(ResolveQuestion(questions, question, first), question, second)
      == ResolveQuestion(questions, question, first)
  {
  }

  /** Acceptance keeps both consistency rules: one accepted answer per
      question, and an accepted answer's question is resolved. */
  lemma {:induction false} AcceptPreservesRules(
    questions: map<nat, QuestionRow>, answers: map<nat, Answer>, target: nat, now: int)
    requires target in answers && answers[target].question in questions
    requires OneAcceptedPerQuestion(answers)
    requires AcceptedImpliesResolved(questions, answers)
    ensures OneAcceptedPerQuestion(AcceptInAnswers(answers, target))
    ensures AcceptedImpliesResolved(
      ResolveQuestion(questions, answers[target].question, now), AcceptInAnswers(answers, target))
  {
    var q := answers[target].question;
    var after := AcceptInAnswers(answers, target);
    var resolved := ResolveQuestion(questions, q, now);
    forall a, b | a in after && b in after && after[a].question == after[b].question
      && after[a].isAccepted && after[b].isAccepted
      ensures a == b
    {
      assert after[a].question == answers[a].question && after[b].question == answers[b].question;
      if answers[a].question != q {
        assert after[a] == answers[a] && after[b] == answers[b];
      }
    }
    forall a | a in after && after[a].isAccepted && after[a].question in resolved
      ensures resolved[after[a].question].isResolved
    {
      assert after[a].question == answers[a].question;
      if answers[a].question != q {
        assert after[a] == answers[a];
      }
    }
  }
}
