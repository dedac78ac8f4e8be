/** The Task document (src/tasks/models/task.schema.ts) and its embedded Comment
    (src/tasks/models/comment.model.ts), with the defaults Mongoose fills in when a
    task is created and the `required` checks it runs on creation. */
module TaskSchema {
  import opened Outcomes
  import ObjectIds

  type Id = ObjectIds.Id

  datatype TaskStatus = Backlog | ToDo | InProgress | Completed

  /** `@Prop({ default: TaskStatus.TO_DO })` */
  const DefaultStatus: TaskStatus := ToDo

  /** `text` and `user` are both required. */
  datatype Comment = Comment(text: string, user: Id)

  /** `completedAt` is not declared by the schema revision in
      src/tasks/models/task.schema.ts; the model takes it as a declared optional
      date, which the service writes. `createdAt` and `updatedAt` are maintained by
      `timestamps: true`. */
  datatype Task = Task(
    title: string,
    description: string,
    createdBy: Id,
    status: TaskStatus,
    assignedTo: Option<Id>,
    attachments: seq<string>,
    comments: seq<Comment>,
    completedAt: Option<int>,
    createdAt: int,
    updatedAt: int)

  /** A stored document together with its `_id`. */
  datatype Doc = Doc(id: Id, task: Task)

  datatype CreateTaskDto = CreateTaskDto(
    title: string,
    description: string,
    attachments: Option<seq<string>>)

  /** Mongoose's `required` validator rejects a missing value and, for strings, "". */
  predicate RequiredString(s: string) {
    s != ""
  }

  predicate IsValidComment(c: Comment) {
    RequiredString(c.text) && ObjectIds.IsCanonical(c.user)
  }

  /** Every field marked `required` holds a value, in the task and in each comment. */
  predicate HasRequiredFields(t: Task) {
    && RequiredString(t.title)
    && RequiredString(t.description)
    && ObjectIds.IsCanonical(t.createdBy)
    && forall i :: 0 <= i < |t.comments| ==> IsValidComment(t.comments[i])
  }

  /** `new taskModel({...dto, createdBy}).save()` at time `now`: the defaults are
      applied, `createdBy` is cast to an ObjectId, and the `required` validators run.
      A failure is a Mongoose error without an HTTP status. */
  function NewTask(dto: CreateTaskDto, createdBy: string, now: int): (r: Result<Task>)
    ensures r.Success? <==>
      RequiredString(dto.title) && RequiredString(dto.description) && ObjectIds.IsValid(createdBy)
    ensures r.Failure? ==> r.error == Unexpected
    ensures r.Success? ==>
      && HasRequiredFields(r.value)
      && r.value.title == dto.title
      && r.value.description == dto.description
      && r.value.createdBy == ObjectIds.Parse(createdBy)
      && r.value.attachments == dto.attachments.GetOr([])
      && r.value.status == DefaultStatus
      && r.value.assignedTo == None
      && r.value.comments == []
      && r.value.completedAt == None
      && r.value.createdAt == now && r.value.updatedAt == now
  {
    if !ObjectIds.IsValid(createdBy) then Failure(Unexpected)
    else
      var t := Task(dto.title, dto.description, ObjectIds.Parse(createdBy), DefaultStatus,
                    None, dto.attachments.GetOr([]), [], None, now, now);
      if RequiredString(t.title) && RequiredString(t.description) then Success(t)
      else Failure(Unexpected)
  }
}
