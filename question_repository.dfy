/**
 * The question table's queries over its rows in scan order.
 */
module QuestionRepository {
  import opened Common
  import opened Text
  import opened Seqs
  import opened QuestionEntity

  /** `ORDER BY q.createdAt DESC`. */
  function NewestFirst(a: QuestionRow, b: QuestionRow): bool
  {
    a.createdAt >= b.createdAt
  }

  lemma NewestFirstIsPreorder()
    ensures TotalPreorder(NewestFirst)
  {
  }

  /** `findByFarmer`: all of the farmer's questions, approved or not. */
  function FindByFarmer(rows: seq<QuestionRow>, farmer: nat): (r: seq<QuestionRow>)
    ensures IsSubsequence(r, rows)
    ensures forall q :: multiset(r)[q] == if q.farmer == farmer then multiset(rows)[q] else 0
  {
    Filter(rows, (q: QuestionRow) => q.farmer == farmer)
  }

  /** `findApprovedQuestionsOrderByDate`. */
  function FindApprovedQuestionsOrderByDate(rows: seq<QuestionRow>): (r: seq<QuestionRow>)
    ensures forall q :: multiset(r)[q] == if q.isApproved then multiset(rows)[q] else 0
    ensures forall i, j :: 0 <= i < j < |r| ==> r[i].createdAt >= r[j].createdAt
  {
    NewestFirstIsPreorder();
    SortBy(Filter(rows, (q: QuestionRow) => q.isApproved), NewestFirst)
  }

  /** `findUnresolvedQuestions`. */
  function FindUnresolvedQuestions(rows: seq<QuestionRow>): (r: seq<QuestionRow>)
    ensures forall q :: multiset(r)[q] == if !q.isResolved && q.isApproved then multiset(rows)[q] else 0
    ensures forall i, j :: 0 <= i < j < |r| ==> r[i].createdAt >= r[j].createdAt
  {
    NewestFirstIsPreorder();
    SortBy(Filter(rows, (q: QuestionRow) => !q.isResolved && q.isApproved), NewestFirst)
  }

  /** `findByCategoryAndApproved`; a null category selects nothing. */
  function FindByCategoryAndApproved(rows: seq<QuestionRow>, category: Option<string>): (r: seq<QuestionRow>)
    ensures IsSubsequence(r, rows)
    ensures forall q :: multiset(r)[q] == if SqlEquals(q.category, category) && q.isApproved then multiset(rows)[q] else 0
    ensures category.None? ==> r == []
  {
    Filter(rows, (q: QuestionRow) => SqlEquals(q.category, category) && q.isApproved)
  }

  /** `searchQuestions` as written: in `A OR B AND C` the `AND` binds
      tighter, so the approval test guards only the content match. */
  function SearchQuestions(rows: seq<QuestionRow>, title: Option<string>, content: Option<string>): (r: seq<QuestionRow>)
    ensures IsSubsequence(r, rows)
    ensures forall q ::
      multiset(r)[q] == if SqlContains(q.title, title) || (SqlContains(q.content, content) && q.isApproved) then multiset(rows)[q] else 0
    ensures forall q :: q in r <==>
      q in rows && (SqlContains(q.title, title) || (SqlContains(q.content, content) && q.isApproved))
  {
    Filter(rows, (q: QuestionRow) => SqlContains(q.title, title) || (SqlContains(q.content, content) && q.isApproved))
  }

  /** An unapproved question whose title contains the searched text is
      returned by the search. */
  lemma {:induction false} SearchReturnsUnapproved(rows: seq<QuestionRow>, q: QuestionRow, title: string, content: Option<string>)
    requires q in rows && !q.isApproved
    requires NoWildcards(title) && Contains(q.title, title)
    ensures q in SearchQuestions(rows, Some(title), content)
  {
    LikeIsContains(q.title, title);
  }

  /** The search with the approval test applied to both matches, as the
      other public queries apply it. */
  function SearchApprovedQuestions(rows: seq<QuestionRow>, title: Option<string>, content: Option<string>): (r: seq<QuestionRow>)
    ensures IsSubsequence(r, rows)
    ensures forall q :: q in r ==> q.isApproved
    ensures forall q ::
      multiset(r)[q] == if q.isApproved && (SqlContains(q.title, title) || SqlContains(q.content, content)) then multiset(rows)[q] else 0
    ensures forall q :: q in r <==>
      q in rows && q.isApproved && (SqlContains(q.title, title) || SqlContains(q.content, content))
  {
    Filter(rows, (q: QuestionRow) => (SqlContains(q.title, title) || SqlContains(q.content, content)) && q.isApproved)
  }
}
