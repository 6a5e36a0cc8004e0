/**
 * The question handlers: a farmer asks a question, the owner or an
 * administrator edits or removes it (removal takes the question's answers
 * with it), and a signed-in user lists the questions they may see.
 */
module QuestionController {
  import opened Common
  import opened Seqs
  import opened Text
  import opened Entities
  import opened QuestionEntity
  import opened Store
  import QuestionRepository

  // The messages the handlers answer with; a failure message is the prefix
  // the exception's own message is appended to.
  const UserNotFound: string := "User not found"
  const CreateFailed: string := "Failed to create question: "
  const UpdateFailed: string := "Failed to update question: "
  const DeleteFailed: string := "Failed to delete question: "
  const NotAuthorizedToUpdate: string := "Not authorized to update this question"
  const NotAuthorizedToDelete: string := "Not authorized to delete this question"
  const Deleted: string := "Question deleted successfully"

  const ListRoles: set<Role> := {Farmer, Expert, Admin}
  const CreateRoles: set<Role> := {Farmer}
  const EditRoles: set<Role> := {Farmer, Admin}

  datatype CreateQuestionRequest = CreateQuestionRequest(
    title: Option<string>, content: Option<string>, category: Option<string>, tags: Option<string>)

  datatype UpdateQuestionRequest = UpdateQuestionRequest(
    title: Option<string>, content: Option<string>, category: Option<string>, tags: Option<string>,
    isResolved: Option<bool>)

  /** The row with every column the request carries replaced. */
  function Edited(row: QuestionRow, request: UpdateQuestionRequest): QuestionRow
  {
    row.(title := if request.title.Some? then request.title.value else row.title,
         content := if request.content.Some? then request.content.value else row.content,
         category := if request.category.Some? then request.category else row.category,
         tags := if request.tags.Some? then request.tags else row.tags,
         isResolved := if request.isResolved.Some? then request.isResolved.value else row.isResolved)
  }

  /** The row `updateQuestion` saves: the edited row, stamped with the
      update time only when some column actually changed. */
  function Saved(row: QuestionRow, request: UpdateQuestionRequest, now: int): QuestionRow
  {
    if Edited(row, request) == row then row else Edited(row, request).(updatedAt := now)
  }

  /** The answer table once a question is removed: the cascade takes every
      answer of the question with it. */
  function WithoutQuestion(answers: map<nat, Answer>, question: nat): (r: map<nat, Answer>)
    ensures forall k :: k in r <==> k in answers && answers[k].question != question
    ensures forall k :: k in r ==> r[k] == answers[k]
  {
    map k | k in answers && answers[k].question != question :: answers[k]
  }

  /** `getAllQuestions`: a farmer sees their own questions, approved or
      not, in scan order; an expert or administrator sees the approved
      questions, newest first. */
  function GetAllQuestions(users: seq<User>, questions: map<nat, QuestionRow>, nextId: nat, auth: Authentication)
    : (r: Result<seq<QuestionRow>>)
    requires QuestionsWellFormed(questions, nextId)
    ensures !HasAnyRole(auth, ListRoles) ==> r == Err(Forbidden)
    ensures HasAnyRole(auth, ListRoles) && CurrentUser(users, auth).None? ==> r == Err(EmptyBadRequest)
    ensures r.Ok? <==> HasAnyRole(auth, ListRoles) && CurrentUser(users, auth).Some?
    ensures r.Ok? && CurrentUser(users, auth).value.role == Farmer ==>
      && IsSubsequence(r.value, Rows(questions, nextId))
      && (forall q :: multiset(r.value)[q] ==
            if q.farmer == CurrentUser(users, auth).value.id then multiset(Rows(questions, nextId))[q] else 0)
      && (forall q :: q in questions.Values && q.farmer == CurrentUser(users, auth).value.id ==> multiset(r.value)[q] == 1)
      && forall q :: q in r.value <==> q in questions.Values && q.farmer == CurrentUser(users, auth).value.id
    ensures r.Ok? && CurrentUser(users, auth).value.role != Farmer ==>
      && (forall q :: multiset(r.value)[q] == if q.isApproved then multiset(Rows(questions, nextId))[q] else 0)
      && (forall q :: q in questions.Values && q.isApproved ==> multiset(r.value)[q] == 1)
      && (forall q :: q in r.value <==> q in questions.Values && q.isApproved)
      && forall i, j :: 0 <= i < j < |r.value| ==> r.value[i].createdAt >= r.value[j].createdAt
  {
    if !HasAnyRole(auth, ListRoles) then Err(Forbidden)
    else
      var user := CurrentUser(users, auth);
      if user.None? then Err(EmptyBadRequest)
      else
        var rows := Rows(questions, nextId);
        TableRows(questions, nextId);
        ScanListsOnce(questions, nextId);
        if user.value.role == Farmer then
          var mine := QuestionRepository.FindByFarmer(rows, user.value.id);
          assert forall q :: q in mine <==> q in rows && q.farmer == user.value.id by {
            forall q ensures q in mine <==> q in rows && q.farmer == user.value.id {
              assert q in mine <==> q in multiset(mine);
              assert q in rows <==> q in multiset(rows);
            }
          }
          Ok(mine)
        else
          var approved := QuestionRepository.FindApprovedQuestionsOrderByDate(rows);
          assert forall q :: q in approved <==> q in rows && q.isApproved by {
            forall q ensures q in approved <==> q in rows && q.isApproved {
              assert q in approved <==> q in multiset(approved);
              assert q in rows <==> q in multiset(rows);
            }
          }
          Ok(approved)
  }

  /** The scan of a well-formed question table lists exactly its rows. */
  lemma TableRows(questions: map<nat, QuestionRow>, nextId: nat)
    requires QuestionsWellFormed(questions, nextId)
    ensures forall q :: q in Rows(questions, nextId) <==> q in questions.Values
  {
    forall q | q in questions.Values ensures q in Rows(questions, nextId) {
      var k :| k in questions && questions[k] == q;
    }
  }

  /** The scan of a table whose rows sit under their own ids lists each
      stored row below `n` exactly once, and nothing twice. */
  lemma {:induction false} ScanListsOnce(questions: map<nat, QuestionRow>, n: nat)
    requires forall k :: k in questions ==> questions[k].id == k
    ensures forall q :: multiset(Rows(questions, n))[q] <= 1
    ensures forall k :: k in questions && k < n ==> multiset(Rows(questions, n))[questions[k]] == 1
    decreases n
  {
    if n > 0 {
      ScanListsOnce(questions, n - 1);
      var prev := Rows(questions, n - 1);
      assert forall x :: x in prev ==> x.id < n - 1;
      if n - 1 in questions {
        assert questions[n - 1] !in prev;
      }
    }
  }

  /** `createQuestion`: a farmer's new question, approved, unresolved and
      with no views, stamped by the creation hook. A blank title or
      content fails validation when the question is saved. */
  method CreateQuestion(db: Database, auth: Authentication, request: CreateQuestionRequest, first: int, second: int)
    returns (r: Result<QuestionRow>)
    requires db.Valid()
    modifies db`questions, db`nextQuestionId
    ensures db.Valid()
    ensures !HasAnyRole(auth, CreateRoles) ==> r == Err(Forbidden)
    ensures HasAnyRole(auth, CreateRoles) && CurrentUser(old(db.users), auth).None?
      ==> r == Err(Rejected(UserNotFound))
    ensures HasAnyRole(auth, CreateRoles) && CurrentUser(old(db.users), auth).Some?
      && !(request.title.Some? && NotBlank(request.title.value) && request.content.Some? && NotBlank(request.content.value))
      ==> r == Err(Failed(CreateFailed))
    ensures r.Ok? <==>
      && HasAnyRole(auth, CreateRoles) && CurrentUser(old(db.users), auth).Some?
      && request.title.Some? && NotBlank(request.title.value)
      && request.content.Some? && NotBlank(request.content.value)
    ensures r.Err? ==> db.questions == old(db.questions) && db.nextQuestionId == old(db.nextQuestionId)
    ensures r.Ok? ==>
      && r.value.id !in old(db.questions)
      && db.questions == old(db.questions)[r.value.id := r.value]
      && r.value == QuestionRow(r.value.id, CurrentUser(old(db.users), auth).value.id,
                                request.title.value, request.content.value, request.category, request.tags,
                                0, false, true, first, second)
  {
    if !HasAnyRole(auth, CreateRoles) {
      return Err(Forbidden);
    }
    var farmer := CurrentUser(db.users, auth);
    if farmer.None? {
      return Err(Rejected(UserNotFound));
    }
    var row := NewQuestion(db.nextQuestionId, farmer.value.id, request, first, second);
    if row.None? {
      return Err(Failed(CreateFailed));
    }
    assert SchemaHolds(db.users, db.questions[row.value.id := row.value], db.answers, db.listings,
                       db.nextQuestionId + 1, db.nextAnswerId, db.nextListingId);
    db.questions := db.questions[row.value.id := row.value];
    db.nextQuestionId := db.nextQuestionId + 1;
    return Ok(row.value);
  }

  /** The new entity of `createQuestion`: its fields set from the request,
      stamped by the creation hook, and flushed under `id` when it passes
      validation. */
  method NewQuestion(id: nat, farmer: nat, request: CreateQuestionRequest, first: int, second: int)
    returns (row: Option<QuestionRow>)
    ensures row.Some? <==>
      request.title.Some? && NotBlank(request.title.value) && request.content.Some? && NotBlank(request.content.value)
    ensures row.Some? ==>
      && Constrained(row.value)
      && row.value == QuestionRow(id, farmer, request.title.value, request.content.value,
                                  request.category, request.tags, 0, false, true, first, second)
  {
    var question := new Question();
    question.farmer := Some(farmer);
    question.title := request.title;
    question.content := request.content;
    question.category := request.category;
    question.tags := request.tags;
    question.isApproved := true;
    question.isResolved := false;
    question.viewCount := 0;
    question.OnCreate(first, second);
    if !question.Persistable() {
      return None;
    }
    return Some(question.RowAt(id));
  }

  /** `updateQuestion`: the owner or an administrator replaces each column
      the request carries. The row is written, and its update time
      stamped, only when some column changed; a blank title or content
      fails validation and nothing is written. */
  method UpdateQuestion(db: Database, auth: Authentication, id: nat, request: UpdateQuestionRequest, now: int)
    returns (r: Result<QuestionRow>)
    requires db.Valid()
    modifies db`questions
    ensures db.Valid()
    ensures !HasAnyRole(auth, EditRoles) ==> r == Err(Forbidden)
    ensures HasAnyRole(auth, EditRoles) && id !in old(db.questions) ==> r == Err(NotFound)
    ensures HasAnyRole(auth, EditRoles) && id in old(db.questions) && CurrentUser(old(db.users), auth).None?
      ==> r == Err(Failed(UpdateFailed))
    ensures HasAnyRole(auth, EditRoles) && id in old(db.questions) && CurrentUser(old(db.users), auth).Some?
      && !OwnerOrAdmin(CurrentUser(old(db.users), auth).value, old(db.questions)[id].farmer)
      ==> r == Err(Rejected(NotAuthorizedToUpdate))
    ensures HasAnyRole(auth, EditRoles) && id in old(db.questions) && CurrentUser(old(db.users), auth).Some?
      && OwnerOrAdmin(CurrentUser(old(db.users), auth).value, old(db.questions)[id].farmer)
      && !Constrained(Edited(old(db.questions)[id], request))
      ==> r == Err(Failed(UpdateFailed))
    ensures r.Ok? <==>
      && HasAnyRole(auth, EditRoles) && id in old(db.questions)
      && CurrentUser(old(db.users), auth).Some?
      && OwnerOrAdmin(CurrentUser(old(db.users), auth).value, old(db.questions)[id].farmer)
      && Constrained(Edited(old(db.questions)[id], request))
    ensures r.Err? ==> db.questions == old(db.questions)
    ensures r.Ok? ==>
      && db.questions == old(db.questions)[id := r.value]
      && r.value == Saved(old(db.questions)[id], request, now)
  {
    if !HasAnyRole(auth, EditRoles) {
      return Err(Forbidden);
    }
    if id !in db.questions {
      return Err(NotFound);
    }
    var row := db.questions[id];
    var currentUser := CurrentUser(db.users, auth);
    if currentUser.None? {
      // Dereferencing the missing user throws.
      return Err(Failed(UpdateFailed));
    }
    if !OwnerOrAdmin(currentUser.value, row.farmer) {
      return Err(Rejected(NotAuthorizedToUpdate));
    }
    var saved := SaveEdits(row, request, now);
    if saved.None? {
      return Err(Failed(UpdateFailed));
    }
    SavedKeepsSchema(db.questions, db.answers, id, request, now, db.nextQuestionId, db.nextAnswerId);
    assert SchemaHolds(db.users, db.questions[id := saved.value], db.answers, db.listings,
                       db.nextQuestionId, db.nextAnswerId, db.nextListingId);
    db.questions := db.questions[id := saved.value];
    return Ok(saved.value);
  }

  /** The entity half of `updateQuestion`: the stored row is loaded, each
      column the request carries is set, the dirty check decides whether
      the update hook runs, and validation decides whether the row can be
      written. */
  method SaveEdits(row: QuestionRow, request: UpdateQuestionRequest, now: int) returns (saved: Option<QuestionRow>)
    requires Constrained(row)
    ensures saved.Some? <==> Constrained(Edited(row, request))
    ensures saved.Some? ==> saved.value == Saved(row, request, now)
  {
    var question := new Question.Load(row);
    ApplyRequest(question, request);
    EditedEntity(question, row, request);
    saved := Flush(question, row, now);
  }

  /** The entity after the setters holds the edited row: it fails
      validation exactly when that row breaks a constraint, and it is
      dirty exactly when that row differs from the stored one. */
  lemma EditedEntity(question: Question, row: QuestionRow, request: UpdateQuestionRequest)
    requires question.Stamped() && question.id == Some(row.id)
    requires question.farmer == Some(row.farmer) && question.viewCount == row.viewCount
    requires question.isApproved == row.isApproved && question.createdAt == Some(row.createdAt)
    requires question.updatedAt == Some(row.updatedAt)
    requires question.title == if request.title.Some? then request.title else Some(row.title)
    requires question.content == if request.content.Some? then request.content else Some(row.content)
    requires question.category == if request.category.Some? then request.category else row.category
    requires question.tags == if request.tags.Some? then request.tags else row.tags
    requires question.isResolved == if request.isResolved.Some? then request.isResolved.value else row.isResolved
    ensures question.Persistable() <==> Constrained(Edited(row, request))
    ensures question.DiffersFrom(row) <==> Edited(row, request) != row
    ensures question.Persistable() ==> question.RowAt(row.id) == Edited(row, request)
  {
  }

  /** `save` on the edited entity: the dirty check against the row it was
      loaded from decides whether the update hook runs, and validation
      whether the row is written. */
  method Flush(question: Question, row: QuestionRow, now: int) returns (saved: Option<QuestionRow>)
    requires question.Stamped()
    modifies question`updatedAt
    ensures saved.Some? <==> old(question.Persistable())
    ensures saved.Some? ==>
      saved.value == if old(question.DiffersFrom(row)) then old(question.RowAt(row.id)).(updatedAt := now)
                     else old(question.RowAt(row.id))
  {
    var dirty := question.DiffersFrom(row);
    if dirty {
      question.OnUpdate(now);
    }
    if !question.Persistable() {
      return None;
    }
    return Some(question.RowAt(row.id));
  }

  /** The setters of `updateQuestion`: each column the request carries
      replaces the entity's. */
  method ApplyRequest(question: Question, request: UpdateQuestionRequest)
    modifies question`title, question`content, question`category, question`tags, question`isResolved
    ensures question.title == if request.title.Some? then request.title else old(question.title)
    ensures question.content == if request.content.Some? then request.content else old(question.content)
    ensures question.category == if request.category.Some? then request.category else old(question.category)
    ensures question.tags == if request.tags.Some? then request.tags else old(question.tags)
    ensures question.isResolved == if request.isResolved.Some? then request.isResolved.value else old(question.isResolved)
  {
    if request.title.Some? {
      question.title := request.title;
    }
    if request.content.Some? {
      question.content := request.content;
    }
    if request.category.Some? {
      question.category := request.category;
    }
    if request.tags.Some? {
      question.tags := request.tags;
    }
    if request.isResolved.Some? {
      question.isResolved := request.isResolved.value;
    }
  }

  /** `deleteQuestion`: the owner or an administrator removes the question,
      and the cascade removes its answers. */
  method DeleteQuestion(db: Database, auth: Authentication, id: nat) returns (r: Result<string>)
    requires db.Valid()
    modifies db`questions, db`answers
    ensures db.Valid()
    ensures !HasAnyRole(auth, EditRoles) ==> r == Err(Forbidden)
    ensures HasAnyRole(auth, EditRoles) && id !in old(db.questions) ==> r == Err(NotFound)
    ensures HasAnyRole(auth, EditRoles) && id in old(db.questions) && CurrentUser(old(db.users), auth).None?
      ==> r == Err(Failed(DeleteFailed))
    ensures HasAnyRole(auth, EditRoles) && id in old(db.questions) && CurrentUser(old(db.users), auth).Some?
      && !OwnerOrAdmin(CurrentUser(old(db.users), auth).value, old(db.questions)[id].farmer)
      ==> r == Err(Rejected(NotAuthorizedToDelete))
    ensures r.Ok? <==>
      && HasAnyRole(auth, EditRoles) && id in old(db.questions)
      && CurrentUser(old(db.users), auth).Some?
      && OwnerOrAdmin(CurrentUser(old(db.users), auth).value, old(db.questions)[id].farmer)
    ensures r.Err? ==> db.questions == old(db.questions) && db.answers == old(db.answers)
    ensures r.Ok? ==>
      && db.questions == old(db.questions) - {id}
      && db.answers == WithoutQuestion(old(db.answers), id)
      && r.value == Deleted
  {
    if !HasAnyRole(auth, EditRoles) {
      return Err(Forbidden);
    }
    if id !in db.questions {
      return Err(NotFound);
    }
    var row := db.questions[id];
    var currentUser := CurrentUser(db.users, auth);
    if currentUser.None? {
      return Err(Failed(DeleteFailed));
    }
    if !OwnerOrAdmin(currentUser.value, row.farmer) {
      return Err(Rejected(NotAuthorizedToDelete));
    }
    var remaining := WithoutQuestion(db.answers, id);
    assert SchemaHolds(db.users, db.questions - {id}, remaining, db.listings,
                       db.nextQuestionId, db.nextAnswerId, db.nextListingId);
    db.questions, db.answers := db.questions - {id}, remaining;
    return Ok(Deleted);
  }

  /** A saved edit keeps the schema's guarantees on questions and answers. */
  lemma SavedKeepsSchema(questions: map<nat, QuestionRow>, answers: map<nat, Answer>, id: nat,
                         request: UpdateQuestionRequest, now: int, nextQuestionId: nat, nextAnswerId: nat)
    requires QuestionsWellFormed(questions, nextQuestionId) && AnswersWellFormed(answers, questions, nextAnswerId)
    requires id in questions && Constrained(Edited(questions[id], request))
    ensures QuestionsWellFormed(questions[id := Saved(questions[id], request, now)], nextQuestionId)
    ensures AnswersWellFormed(answers, questions[id := Saved(questions[id], request, now)], nextAnswerId)
  {
  }

  /** Saving the same edit a second time changes nothing, not even the
      update time: the entity is no longer dirty. */
  lemma UpdateTwiceStampsOnce(row: QuestionRow, request: UpdateQuestionRequest, first: int, second: int)
    ensures Saved(Saved(row, request, first), request, second) == Saved(row, request, first)
  {
  }

  /** An edit keeps the question's identity, owner, approval, view count
      and creation time, and moves the update time only when some column
      changed. */
  lemma SavedKeepsIdentity(row: QuestionRow, request: UpdateQuestionRequest, now: int)
    ensures var s := Saved(row, request, now);
      && s.id == row.id && s.farmer == row.farmer && s.isApproved == row.isApproved
      && s.viewCount == row.viewCount && s.createdAt == row.createdAt
      && (s.updatedAt != row.updatedAt ==> s != row && s.updatedAt == now)
  {
  }

  /** `createQuestion` keeps both consistency rules: no stored answer can
      point to the new id. */
  lemma CreateKeepsRules(questions: map<nat, QuestionRow>, answers: map<nat, Answer>, nextAnswerId: nat,
                         created: QuestionRow)
    requires AnswersWellFormed(answers, questions, nextAnswerId) && created.id !in questions
    requires AcceptedImpliesResolved(questions, answers)
    ensures AcceptedImpliesResolved(questions[created.id := created], answers)
  {
  }

  /** An edit that does not clear the resolved flag keeps rule I2, as
      rule I1 is about answers alone. */
  lemma {:induction false} UpdateKeepsRules(questions: map<nat, QuestionRow>, answers: map<nat, Answer>, id: nat,
                                            request: UpdateQuestionRequest, now: int)
    requires id in questions && request.isResolved != Some(false)
    requires AcceptedImpliesResolved(questions, answers)
    ensures AcceptedImpliesResolved(questions[id := Saved(questions[id], request, now)], answers)
  {
    var after := questions[id := Saved(questions[id], request, now)];
    forall a | a in answers && answers[a].isAccepted && answers[a].question in after
      ensures after[answers[a].question].isResolved
    {
      assert answers[a].question in questions;
    }
  }

  /** An edit that clears the resolved flag of a question with an accepted
      answer breaks rule I2: nothing in `updateQuestion` guards it. */
  lemma UpdateCanBreakResolution(questions: map<nat, QuestionRow>, answers: map<nat, Answer>, id: nat,
                                 request: UpdateQuestionRequest, now: int, accepted: nat)
    requires id in questions && request.isResolved == Some(false)
    requires accepted in answers && answers[accepted].isAccepted && answers[accepted].question == id
    ensures !AcceptedImpliesResolved(questions[id := Saved(questions[id], request, now)], answers)
  {
    var after := questions[id := Saved(questions[id], request, now)];
    assert !after[answers[accepted].question].isResolved;
  }

  /** `deleteQuestion` keeps both consistency rules. */
  lemma {:induction false} DeleteKeepsRules(questions: map<nat, QuestionRow>, answers: map<nat, Answer>, id: nat)
    requires OneAcceptedPerQuestion(answers) && AcceptedImpliesResolved(questions, answers)
    ensures OneAcceptedPerQuestion(WithoutQuestion(answers, id))
    ensures AcceptedImpliesResolved(questions - {id}, WithoutQuestion(answers, id))
  {
    var after := WithoutQuestion(answers, id);
    forall a, b | a in after && b in after && after[a].question == after[b].question
      && after[a].isAccepted && after[b].isAccepted
      ensures a == b
    {
      assert after[a] == answers[a] && after[b] == answers[b];
    }
    forall a | a in after && after[a].isAccepted && after[a].question in questions - {id}
      ensures (questions - {id})[after[a].question].isResolved
    {
      assert after[a] == answers[a];
    }
  }
}
