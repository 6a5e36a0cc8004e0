/**
 * The answer table's queries: declarative filters, orderings and a count
 * over the rows of the table in scan order.
 */
module AnswerRepository {
  import opened Entities
  import opened Seqs

  /** `ORDER BY a.upvotes DESC, a.createdAt ASC`. */
  function MostVotedFirst(a: Answer, b: Answer): bool
  {
    a.upvotes > b.upvotes || (a.upvotes == b.upvotes && a.createdAt <= b.createdAt)
  }

  /** `ORDER BY a.createdAt DESC`. */
  function NewestFirst(a: Answer, b: Answer): bool
  {
    a.createdAt >= b.createdAt
  }

  lemma OrdersArePreorders()
    ensures TotalPreorder(MostVotedFirst) && TotalPreorder(NewestFirst)
  {
  }

  /** `findByQuestion`: every answer of the question, approved or not. */
  function FindByQuestion(rows: seq<Answer>, question: nat): (r: seq<Answer>)
    ensures IsSubsequence(r, rows)
    ensures forall a :: multiset(r)[a] == if a.question == question then multiset(rows)[a] else 0
  {
    Filter(rows, (a: Answer) => a.question == question)
  }

  /** `findApprovedAnswersByQuestionOrderByVotes`. */
  function FindApprovedAnswersByQuestionOrderByVotes(rows: seq<Answer>, question: nat): (r: seq<Answer>)
    ensures forall a :: multiset(r)[a] == if a.question == question && a.isApproved then multiset(rows)[a] else 0
    ensures forall i, j :: 0 <= i < j < |r| ==>
      r[i].upvotes > r[j].upvotes || (r[i].upvotes == r[j].upvotes && r[i].createdAt <= r[j].createdAt)
  {
    OrdersArePreorders();
    SortBy(Filter(rows, (a: Answer) => a.question == question && a.isApproved), MostVotedFirst)
  }

  /** `findApprovedAnswersByExpert`. */
  function FindApprovedAnswersByExpert(rows: seq<Answer>, expert: nat): (r: seq<Answer>)
    ensures forall a :: multiset(r)[a] == if a.expert == expert && a.isApproved then multiset(rows)[a] else 0
    ensures forall i, j :: 0 <= i < j < |r| ==> r[i].createdAt >= r[j].createdAt
  {
    OrdersArePreorders();
    SortBy(Filter(rows, (a: Answer) => a.expert == expert && a.isApproved), NewestFirst)
  }

  /** `countApprovedAnswersByExpert`: a `COUNT` over the same condition. */
  function CountApprovedAnswersByExpert(rows: seq<Answer>, expert: nat): (n: nat)
    ensures n <= |rows|
    decreases |rows|
  {
    if rows == [] then 0
    else (if rows[0].expert == expert && rows[0].isApproved then 1 else 0)
         + CountApprovedAnswersByExpert(rows[1..], expert)
  }

  /** The count agrees with the length of the corresponding list. */
  lemma {:induction false} CountMatchesList(rows: seq<Answer>, expert: nat)
    ensures CountApprovedAnswersByExpert(rows, expert) == |FindApprovedAnswersByExpert(rows, expert)|
    decreases |rows|
  {
    var p := (a: Answer) => a.expert == expert && a.isApproved;
    var listed := FindApprovedAnswersByExpert(rows, expert);
    assert |listed| == |multiset(listed)| == |multiset(Filter(rows, p))| == |Filter(rows, p)|;
    FilterCount(rows, expert);
  }

  lemma {:induction false} FilterCount(rows: seq<Answer>, expert: nat)
    ensures CountApprovedAnswersByExpert(rows, expert)
         == |Filter(rows, (a: Answer) => a.expert == expert && a.isApproved)|
    decreases |rows|
  {
    if rows != [] {
      FilterCount(rows[1..], expert);
    }
  }
}
