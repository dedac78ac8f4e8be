/** The single-document writes `updateTask` and `addCommentToTask` perform through
    `updateOne` (src/tasks/tasks.service.ts). `updateOne` runs no validators, and
    `timestamps: true` adds `updatedAt := now` to every update. */
module TaskUpdates {
  import opened Outcomes
  import opened TaskSchema

  /** The body of an update request: every field is optional. */
  datatype UpdateTaskDto = UpdateTaskDto(
    status: Option<TaskStatus>,
    title: Option<string>,
    description: Option<string>)

  /** `{...dto, ...(dto.status === COMPLETED && {completedAt: now})}` applied to `t`. */
  function ApplyUpdate(t: Task, dto: UpdateTaskDto, now: int): (r: Task)
    ensures r.completedAt == if dto.status == Some(Completed) then Some(now) else t.completedAt
    ensures r.status == dto.status.GetOr(t.status)
    ensures r.title == dto.title.GetOr(t.title)
    ensures r.description == dto.description.GetOr(t.description)
    ensures r.updatedAt == now
    ensures r.(status := t.status, title := t.title, description := t.description,
               completedAt := t.completedAt, updatedAt := t.updatedAt) == t
  {
    var stamped := if dto.status == Some(Completed) then Some(now) else t.completedAt;
    t.(status := dto.status.GetOr(t.status),
       title := dto.title.GetOr(t.title),
       description := dto.description.GetOr(t.description),
       completedAt := stamped,
       updatedAt := now)
  }

  /** `{ $push: { comments: c } }` applied to `t`. */
  function WithComment(t: Task, c: Comment, now: int): (r: Task)
    ensures |r.comments| == |t.comments| + 1
    ensures r.comments[..|t.comments|] == t.comments && r.comments[|t.comments|] == c
    ensures r.updatedAt == now
    ensures r.(comments := t.comments, updatedAt := t.updatedAt) == t
  {
    t.(comments := t.comments + [c], updatedAt := now)
  }

  /** An update keeps every required field when the strings it writes are non-empty. */
  lemma UpdateKeepsRequired(t: Task, dto: UpdateTaskDto, now: int)
    requires HasRequiredFields(t)
    requires dto.title.Some? ==> RequiredString(dto.title.value)
    requires dto.description.Some? ==> RequiredString(dto.description.value)
    ensures HasRequiredFields(ApplyUpdate(t, dto, now))
  {
    var r := ApplyUpdate(t, dto, now);
    assert r.comments == t.comments;
  }

  /** Without validators on `updateOne`, an empty title is written and the stored
      task no longer has its required fields. */
  lemma EmptyTitleIsWritten(t: Task, now: int)
    requires HasRequiredFields(t)
    ensures !HasRequiredFields(ApplyUpdate(t, UpdateTaskDto(None, Some(""), None), now))
  {
  }

  /** Appending a valid comment keeps every required field. */
  lemma CommentKeepsRequired(t: Task, c: Comment, now: int)
    requires HasRequiredFields(t) && IsValidComment(c)
    ensures HasRequiredFields(WithComment(t, c, now))
  {
    var r := WithComment(t, c, now);
    forall i | 0 <= i < |r.comments| ensures IsValidComment(r.comments[i]) {
      if i < |t.comments| {
        assert r.comments[i] == t.comments[i];
      }
    }
  }

  /** Neither write changes who the task is assigned to. */
  lemma WritesKeepAssignee(t: Task, dto: UpdateTaskDto, c: Comment, now: int)
    ensures ApplyUpdate(t, dto, now).assignedTo == t.assignedTo
    ensures WithComment(t, c, now).assignedTo == t.assignedTo
  {
  }

  /** An update that carries no field still changes the document whenever the clock
      has moved, since the store stamps `updatedAt`. */
  lemma EmptyUpdateModifies(t: Task, now: int)
    requires now != t.updatedAt
    ensures ApplyUpdate(t, UpdateTaskDto(None, None, None), now) != t
  {
  }

  /** Repeating an update at the same instant changes nothing more: the second
      `updateOne` reports no modification. */
  lemma UpdateIdempotent(t: Task, dto: UpdateTaskDto, now: int)
    ensures ApplyUpdate(ApplyUpdate(t, dto, now), dto, now) == ApplyUpdate(t, dto, now)
  {
  }
}
