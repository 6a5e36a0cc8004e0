/**
 * The relational store the handlers work on, as in-memory tables keyed by
 * id, with the integrity the schema guarantees, and the two consistency
 * rules of the Q&A workflow.
 */
module Store {
  import opened Common
  import opened Entities
  import opened QuestionEntity

  /** Ids equal positions, and no two users share a username or an email. */
  ghost predicate UsersWellFormed(users: seq<User>)
  {
    && (forall i :: 0 <= i < |users| ==> users[i].id == i)
    && (forall i, j :: 0 <= i < j < |users| ==> users[i].username != users[j].username)
    && (forall i, j :: 0 <= i < j < |users| ==> users[i].email != users[j].email)
  }

  /** Rule I1 for one question: at most one of its answers is accepted. */
  ghost predicate AtMostOneAccepted(answers: map<nat, Answer>, question: nat)
  {
    forall a, b ::
      && a in answers && b in answers
      && answers[a].question == question && answers[b].question == question
      && answers[a].isAccepted && answers[b].isAccepted
      ==> a == b
  }

  /** Rule I1 for every question. */
  ghost predicate OneAcceptedPerQuestion(answers: map<nat, Answer>)
  {
    forall a, b ::
      && a in answers && b in answers
      && answers[a].question == answers[b].question
      && answers[a].isAccepted && answers[b].isAccepted
      ==> a == b
  }

  /** Rule I2: a question with an accepted answer is resolved. */
  ghost predicate AcceptedImpliesResolved(questions: map<nat, QuestionRow>, answers: map<nat, Answer>)
  {
    forall a :: a in answers && answers[a].isAccepted && answers[a].question in questions ==>
      questions[answers[a].question].isResolved
  }

  /** Every question sits under its own id, below the next id to be issued,
      and meets its constraints. */
  ghost predicate QuestionsWellFormed(questions: map<nat, QuestionRow>, nextId: nat)
  {
    forall k :: k in questions ==> questions[k].id == k && k < nextId && Constrained(questions[k])
  }

  /** Every answer sits under its own id, below the next id to be issued,
      and its question exists. */
  ghost predicate AnswersWellFormed(answers: map<nat, Answer>, questions: map<nat, QuestionRow>, nextId: nat)
  {
    forall k :: k in answers ==> answers[k].id == k && k < nextId && answers[k].question in questions
  }

  /** Every listing carries its own id, below the next id to be issued, and
      has a farmer. */
  ghost predicate ListingsWellFormed(listings: map<nat, Listing>, nextId: nat)
  {
    forall k :: k in listings ==> listings[k].id == Some(k) && k < nextId && listings[k].farmer.Some?
  }

  /** The schema's guarantees on the four tables and their id counters. */
  ghost predicate SchemaHolds(users: seq<User>, questions: map<nat, QuestionRow>, answers: map<nat, Answer>,
                             listings: map<nat, Listing>, nq: nat, na: nat, nl: nat)
  {
    UsersWellFormed(users) && QuestionsWellFormed(questions, nq) && AnswersWellFormed(answers, questions, na)
    && ListingsWellFormed(listings, nl)
  }

  class Database {
    var users: seq<User>
    var questions: map<nat, QuestionRow>
    var answers: map<nat, Answer>
    var listings: map<nat, Listing>
    var nextQuestionId: nat
    var nextAnswerId: nat
    var nextListingId: nat

    /** The schema's guarantees hold for the stored tables. */
    ghost predicate Valid()
      reads this
    {
      SchemaHolds(users, questions, answers, listings, nextQuestionId, nextAnswerId, nextListingId)
    }

    constructor ()
      ensures Valid()
      ensures users == [] && questions == map[] && answers == map[] && listings == map[]
    {
      users, questions, answers, listings := [], map[], map[], map[];
      nextQuestionId, nextAnswerId, nextListingId := 0, 0, 0;
    }
  }
}
