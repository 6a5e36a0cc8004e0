/**
 * The Question entity: a mutable object whose fields the handlers set one
 * by one, whose lifecycle hooks stamp the creation and update times, and
 * which is flushed to a row of the question table.
 */
module QuestionEntity {
  import opened Common
  import opened Text

  /** A row of the question table. The owning farmer's column is not
      nullable, so it holds a plain id. */
  datatype QuestionRow = QuestionRow(
    id: nat,
    farmer: nat,
    title: string,
    content: string,
    category: Option<string>,
    tags: Option<string>,
    viewCount: int,
    isResolved: bool,
    isApproved: bool,
    createdAt: int,
    updatedAt: int)

  /** The bean-validation constraints every stored question meets: a title
      and a content that are not blank. */
  predicate Constrained(row: QuestionRow)
  {
    NotBlank(row.title) && NotBlank(row.content)
  }

  class Question {
    var id: Option<nat>
    var farmer: Option<nat>
    var title: Option<string>
    var content: Option<string>
    var category: Option<string>
    var tags: Option<string>
    var viewCount: int
    var isResolved: bool
    var isApproved: bool
    var createdAt: Option<int>
    var updatedAt: Option<int>

    /** A new question carries the field initialisers: no views, not
        resolved, approved; everything else null. */
    constructor ()
      ensures id == None && farmer == None && title == None && content == None
      ensures category == None && tags == None && createdAt == None && updatedAt == None
      ensures viewCount == 0 && !isResolved && isApproved
    {
      id, farmer, title, content := None, None, None, None;
      category, tags, createdAt, updatedAt := None, None, None, None;
      viewCount, isResolved, isApproved := 0, false, true;
    }

    /** The managed entity of a stored row. */
    constructor Load(row: QuestionRow)
      requires Constrained(row)
      ensures Persistable() && Stamped() && !DiffersFrom(row)
      ensures id == Some(row.id) && RowAt(row.id) == row
    {
      id, farmer, title, content := Some(row.id), Some(row.farmer), Some(row.title), Some(row.content);
      category, tags := row.category, row.tags;
      viewCount, isResolved, isApproved := row.viewCount, row.isResolved, row.isApproved;
      createdAt, updatedAt := Some(row.createdAt), Some(row.updatedAt);
    }

    /** The columns that must hold for a flush: a farmer, and a title and a
        content that are not blank. */
    predicate Persistable()
      reads this`farmer, this`title, this`content
    {
      farmer.Some? && title.Some? && NotBlank(title.value) && content.Some? && NotBlank(content.value)
    }

    /** Both timestamps have been set by a lifecycle hook. */
    predicate Stamped()
      reads this`createdAt, this`updatedAt
    {
      createdAt.Some? && updatedAt.Some?
    }

    /** The `@PrePersist` hook. It reads the clock once for each timestamp,
        so the two are equal only when both readings are. */
    method OnCreate(first: int, second: int)
      modifies this`createdAt, this`updatedAt
      ensures createdAt == Some(first) && updatedAt == Some(second)
      ensures first == second ==> createdAt == updatedAt
    {
      createdAt := Some(first);
      updatedAt := Some(second);
    }

    /** The `@PreUpdate` hook: only the update time moves. */
    method OnUpdate(now: int)
      modifies this`updatedAt
      ensures updatedAt == Some(now)
      ensures createdAt == old(createdAt)
    {
      updatedAt := Some(now);
    }

    /** The row this entity is flushed to under the given id. */
    function RowAt(key: nat): (row: QuestionRow)
      reads this
      requires Persistable() && Stamped()
      ensures Constrained(row)
      ensures row.id == key && row.farmer == farmer.value && row.title == title.value && row.content == content.value
      ensures row.category == category && row.tags == tags && row.viewCount == viewCount
      ensures row.isResolved == isResolved && row.isApproved == isApproved
      ensures row.createdAt == createdAt.value && row.updatedAt == updatedAt.value
    {
      QuestionRow(key, farmer.value, title.value, content.value, category, tags,
                  viewCount, isResolved, isApproved, createdAt.value, updatedAt.value)
    }

    /** Hibernate's dirty check: some mapped column differs from the row the
        entity was loaded from. */
    predicate DiffersFrom(row: QuestionRow)
      reads this
    {
      || farmer != Some(row.farmer) || title != Some(row.title) || content != Some(row.content)
      || category != row.category || tags != row.tags || viewCount != row.viewCount
      || isResolved != row.isResolved || isApproved != row.isApproved
      || createdAt != Some(row.createdAt) || updatedAt != Some(row.updatedAt)
    }
  }
}
