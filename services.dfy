/** The task and user services (src/tasks/tasks.service.ts, src/users/users.service.ts)
    over one in-memory store that stands for the two MongoDB collections. Each
    collection is a map from `_id` to document plus the order in which documents
    were inserted. MongoDB leaves the scan order of an unsorted `find`/`findOne`
    unspecified; the model assumes it is insertion order. The tables never fail
    part-way through an operation. */
module Services {
  import opened Outcomes
  import ObjectIds
  import opened TaskSchema
  import opened UserSchema
  import CreateUserDtos
  import ArrayOps
  import UsersService
  import opened Assignments
  import opened TaskUpdates
  import QueryDtos
  import TaskFilter
  import MonthlyStats

  /** The task collection as `find({})` returns it: every document, in store order. */
  function DocsOf(order: seq<Id>, tasks: TaskTable): (r: seq<Doc>)
    requires forall i :: 0 <= i < |order| ==> order[i] in tasks
    ensures |r| == |order|
    ensures forall i :: 0 <= i < |r| ==> r[i] == Doc(order[i], tasks[order[i]])
  {
    seq(|order|, i requires 0 <= i < |order| => Doc(order[i], tasks[order[i]]))
  }

  /** Each stored (id, task) pair occurs in the documents as often as its id occurs
      in `order`; nothing else occurs. */
  lemma {:induction false} DocsOfCount(order: seq<Id>, tasks: TaskTable, d: Doc)
    requires forall i :: 0 <= i < |order| ==> order[i] in tasks
    ensures multiset(DocsOf(order, tasks))[d] ==
      if d.id in tasks && d.task == tasks[d.id] then multiset(order)[d.id] else 0
  {
    if order != [] {
      assert order == [order[0]] + order[1..];
      assert DocsOf(order, tasks) == [Doc(order[0], tasks[order[0]])] + DocsOf(order[1..], tasks);
      DocsOfCount(order[1..], tasks, d);
    }
  }

  /** With `order` listing the keys once each, the documents are exactly the stored
      (id, task) pairs. */
  lemma DocsOfMembers(order: seq<Id>, tasks: TaskTable, d: Doc)
    requires IsOrderOf(order, tasks.Keys)
    ensures d in DocsOf(order, tasks) <==> d.id in tasks && d.task == tasks[d.id]
  {
    var docs := DocsOf(order, tasks);
    if d.id in tasks && d.task == tasks[d.id] {
      assert d.id in order;
      var i :| 0 <= i < |order| && order[i] == d.id;
      assert docs[i] == d;
    }
  }

  class Store {
    var tasks: TaskTable
    var taskOrder: seq<Id>
    var users: UserTable
    var userOrder: seq<Id>
    /** Whether the user collection carries a unique index on `email`; the schema
        declares none, so the index, if any, lives outside this code. */
    const uniqueEmail: bool

    ghost predicate Valid()
      reads this
    {
      && IsOrderOf(taskOrder, tasks.Keys) && IsOrderOf(userOrder, users.Keys)
      && KeysCanonical(tasks.Keys) && KeysCanonical(users.Keys)
      && ListsAreSets(users)
    }

    /** A stored task names user u as assignee exactly when u lists the task. */
    ghost predicate Consistent()
      reads this
    {
      Assignments.Consistent(tasks, users)
    }

    constructor(uniqueEmail: bool)
      ensures Valid() && Consistent()
      ensures tasks == map[] && users == map[] && this.uniqueEmail == uniqueEmail
    {
      tasks := map[];
      taskOrder := [];
      users := map[];
      userOrder := [];
      this.uniqueEmail := uniqueEmail;
    }

    /** The store holds task `d.task` under `d.id`. */
    ghost predicate Stores(d: Doc)
      reads this
    {
      d.id in tasks && d.task == tasks[d.id]
    }

    function Documents(): (r: seq<Doc>)
      requires Valid()
      reads this
      ensures forall d :: multiset(r)[d] == if Stores(d) then 1 else 0
    {
      var r := DocsOf(taskOrder, tasks);
      assert forall d :: multiset(r)[d] == if Stores(d) then 1 else 0 by {
        forall d ensures multiset(r)[d] == if Stores(d) then 1 else 0 {
          DocsOfCount(taskOrder, tasks, d);
          ArrayOps.NoDuplicatesCount(taskOrder, d.id);
        }
      }
      r
    }

    /** `createTask`: the body's fields plus `createdBy := caller.sub`, stored under a
        fresh id. A failed `save` (a missing required field, a caller id that cannot
        be cast) is re-thrown without a status. */
    method CreateTask(dto: CreateTaskDto, callerSub: string, newId: Id, now: int) returns (r: Result<Doc>)
      requires Valid() && newId !in tasks && ObjectIds.IsCanonical(newId)
      modifies this
      ensures Valid()
      ensures users == old(users) && userOrder == old(userOrder)
      ensures r.Failure? <==> NewTask(dto, callerSub, now).Failure?
      ensures r.Failure? ==> r.error == Unexpected && tasks == old(tasks) && taskOrder == old(taskOrder)
      ensures r.Success? ==>
        && r.value == Doc(newId, NewTask(dto, callerSub, now).value)
        && tasks == old(tasks)[newId := r.value.task]
        && taskOrder == old(taskOrder) + [newId]
      ensures old(Consistent()) && Holders(users, newId) == {} ==> Consistent()
    {
      var created := NewTask(dto, callerSub, now);
      if created.Failure? {
        return Failure(created.error);
      }
      ghost var before := tasks;
      tasks := tasks[newId := created.value];
      taskOrder := taskOrder + [newId];
      r := Success(Doc(newId, created.value));
      if Assignments.Consistent(before, users) && Holders(users, newId) == {} {
        InsertTaskKeepsConsistent(before, users, newId, created.value);
      }
    }

    /** `findTaskById`: BadRequest for a malformed id, NotFound for an absent task. */
    method FindTaskById(id: string) returns (r: Result<Doc>)
      requires Valid()
      ensures !ObjectIds.IsValid(id) ==> r == Failure(BadRequest(IdNotValid))
      ensures ObjectIds.IsValid(id) && ObjectIds.Parse(id) !in tasks ==>
        r == Failure(NotFound(TaskNotFound(id)))
      ensures ObjectIds.IsValid(id) && ObjectIds.Parse(id) in tasks ==>
        r == Success(Doc(ObjectIds.Parse(id), tasks[ObjectIds.Parse(id)]))
      ensures r.Success? ==> r.value in Documents()
    {
      if !ObjectIds.IsValid(id) {
        return Failure(BadRequest(IdNotValid));
      }
      var t := ObjectIds.Parse(id);
      if t !in tasks {
        return Failure(NotFound(TaskNotFound(id)));
      }
      r := Success(Doc(t, tasks[t]));
      DocsOfMembers(taskOrder, tasks, r.value);
    }

    /** `assignTaskToUser`: pull the task from the first user listing it, point the
        task at the new user, add the task to that user's list. The two writes at the
        end report whether each matched a document. */
    method AssignTaskToUser(taskId: string, userId: string, now: int) returns (r: Result<(bool, bool)>)
      requires Valid()
      modifies this
      ensures Valid() && taskOrder == old(taskOrder) && userOrder == old(userOrder)
      ensures !ObjectIds.IsValid(taskId) || !ObjectIds.IsValid(userId) ==>
        r == Failure(BadRequest(IdNotValid)) && tasks == old(tasks) && users == old(users)
      ensures ObjectIds.IsValid(taskId) && ObjectIds.IsValid(userId) ==>
        var t := ObjectIds.Parse(taskId);
        var u := ObjectIds.Parse(userId);
        && r == Success((t in old(tasks), u in old(users)))
        && (tasks, users) == Assign(old(tasks), old(users), old(userOrder), t, u, now)
        && (t in tasks ==> tasks[t].assignedTo == Some(u))
        && (u in users ==> t in users[u].assignedTasks)
        && (|Holders(old(users), t)| <= 1 ==> Holders(users, t) == if u in users then {u} else {})
      ensures old(Consistent()) ==> Consistent()
    {
      if !ObjectIds.IsValid(taskId) || !ObjectIds.IsValid(userId) {
        return Failure(BadRequest(IdNotValid));
      }
      var t := ObjectIds.Parse(taskId);
      var u := ObjectIds.Parse(userId);
      var previous := UsersService.FirstHolder(userOrder, users, t);
      var pulled := users;
      if previous.Some? {
        pulled := PullTask(users, previous.value, t, now);
      }
      r := Success((t in tasks, u in users));
      var reassigned := SetAssignee(tasks, t, u, now);
      var added := AddTask(pulled, u, t, now);
      assert (reassigned, added) == Assign(tasks, users, userOrder, t, u, now);
      assert reassigned.Keys == tasks.Keys && added.Keys == users.Keys && ListsAreSets(added)
        && (t in reassigned ==> reassigned[t].assignedTo == Some(u))
        && (u in added ==> t in added[u].assignedTasks)
        && (|Holders(users, t)| <= 1 ==> Holders(added, t) == if u in added then {u} else {})
      by {
        AssignOutcome(tasks, users, userOrder, t, u, now);
        AssignKeepsSets(tasks, users, userOrder, t, u, now);
      }
      assert Assignments.Consistent(tasks, users) ==> Assignments.Consistent(reassigned, added) by {
        if Assignments.Consistent(tasks, users) {
          AssignKeepsConsistent(tasks, users, userOrder, t, u, now);
        }
      }
      tasks, users := reassigned, added;
    }

    /** `updateTask`: write the body's fields (and `completedAt` for COMPLETED); a
        write that modifies nothing, because the task is absent or already holds
        those values, is reported as NotFound. */
    method UpdateTask(taskId: string, dto: UpdateTaskDto, now: int) returns (r: Result<nat>)
      requires Valid()
      modifies this
      ensures Valid() && taskOrder == old(taskOrder)
      ensures users == old(users) && userOrder == old(userOrder)
      ensures !ObjectIds.IsValid(taskId) ==> r == Failure(BadRequest(IdNotValid)) && tasks == old(tasks)
      ensures ObjectIds.IsValid(taskId) ==>
        var t := ObjectIds.Parse(taskId);
        if t in old(tasks) && ApplyUpdate(old(tasks)[t], dto, now) != old(tasks)[t] then
          r == Success(1) && tasks == old(tasks)[t := ApplyUpdate(old(tasks)[t], dto, now)]
        else
          r == Failure(NotFound(TaskNotFound(taskId))) && tasks == old(tasks)
      ensures old(Consistent()) ==> Consistent()
    {
      if !ObjectIds.IsValid(taskId) {
        return Failure(BadRequest(IdNotValid));
      }
      var t := ObjectIds.Parse(taskId);
      if t !in tasks || ApplyUpdate(tasks[t], dto, now) == tasks[t] {
        return Failure(NotFound(TaskNotFound(taskId)));
      }
      var updated := ApplyUpdate(tasks[t], dto, now);
      if Assignments.Consistent(tasks, users) {
        ReplaceTaskKeepsConsistent(tasks, users, t, updated);
      }
      tasks := tasks[t := updated];
      r := Success(1);
    }

    /** `deleteTask`: look the task up, pull it from its assignee's list, delete it.
        A task with no assignee makes `assignedTo.toString()` throw, so it is kept. */
    method DeleteTask(taskId: string, now: int) returns (r: Result<nat>)
      requires Valid()
      modifies this
      ensures Valid() && userOrder == old(userOrder)
      ensures !ObjectIds.IsValid(taskId) ==>
        r == Failure(BadRequest(IdNotValid)) && tasks == old(tasks) && users == old(users) && taskOrder == old(taskOrder)
      ensures ObjectIds.IsValid(taskId) && ObjectIds.Parse(taskId) !in old(tasks) ==>
        r == Failure(NotFound(TaskNotFound(taskId))) && tasks == old(tasks) && users == old(users) && taskOrder == old(taskOrder)
      ensures ObjectIds.IsValid(taskId) && ObjectIds.Parse(taskId) in old(tasks) ==>
        var t := ObjectIds.Parse(taskId);
        if old(tasks)[t].assignedTo.None? then
          r == Failure(Unexpected) && tasks == old(tasks) && users == old(users) && taskOrder == old(taskOrder)
        else
          && r == Success(1)
          && (tasks, users) == Delete(old(tasks), old(users), t, now)
          && taskOrder == ArrayOps.Pull(old(taskOrder), t)
          && t !in tasks
      ensures old(Consistent()) ==> Consistent()
      ensures old(Consistent()) && r.Success? ==> Holders(users, ObjectIds.Parse(taskId)) == {}
    {
      if !ObjectIds.IsValid(taskId) {
        return Failure(BadRequest(IdNotValid));
      }
      var t := ObjectIds.Parse(taskId);
      if t !in tasks {
        return Failure(NotFound(TaskNotFound(taskId)));
      }
      var found := tasks[t];
      if found.assignedTo.None? {
        return Failure(Unexpected);
      }
      var pulled := PullTask(users, found.assignedTo.value, t, now);
      var remaining := tasks - {t};
      var order := ArrayOps.Pull(taskOrder, t);
      assert (remaining, pulled) == Delete(tasks, users, t, now);
      assert IsOrderOf(order, remaining.Keys) && ListsAreSets(pulled) && pulled.Keys == users.Keys by {
        ArrayOps.PullKeepsNoDuplicates(taskOrder, t);
        ListWritesKeepSets(users, found.assignedTo.value, t, now);
      }
      assert Assignments.Consistent(tasks, users) ==>
        Assignments.Consistent(remaining, pulled) && Holders(pulled, t) == {}
      by {
        if Assignments.Consistent(tasks, users) {
          DeleteKeepsConsistent(tasks, users, t, now);
        }
      }
      tasks, users, taskOrder := remaining, pulled, order;
      r := Success(1);
    }

    /** `addCommentToTask`: `$push` the comment `{text, user: caller.sub}`. The result
        is the write's modified count; an absent task is not an error. */
    method AddCommentToTask(taskId: string, text: string, callerSub: string, now: int) returns (r: Result<nat>)
      requires Valid()
      modifies this
      ensures Valid() && taskOrder == old(taskOrder)
      ensures users == old(users) && userOrder == old(userOrder)
      ensures !ObjectIds.IsValid(taskId) ==> r == Failure(BadRequest(IdNotValid)) && tasks == old(tasks)
      ensures ObjectIds.IsValid(taskId) && !ObjectIds.IsValid(callerSub) ==>
        r == Failure(Unexpected) && tasks == old(tasks)
      ensures ObjectIds.IsValid(taskId) && ObjectIds.IsValid(callerSub) ==>
        var t := ObjectIds.Parse(taskId);
        var c := Comment(text, ObjectIds.Parse(callerSub));
        if t in old(tasks) then
          r == Success(1) && tasks == old(tasks)[t := WithComment(old(tasks)[t], c, now)]
        else
          r == Success(0) && tasks == old(tasks)
      ensures old(Consistent()) ==> Consistent()
    {
      if !ObjectIds.IsValid(taskId) {
        return Failure(BadRequest(IdNotValid));
      }
      if !ObjectIds.IsValid(callerSub) {
        return Failure(Unexpected);
      }
      var t := ObjectIds.Parse(taskId);
      if t !in tasks {
        return Success(0);
      }
      var updated := WithComment(tasks[t], Comment(text, ObjectIds.Parse(callerSub)), now);
      if Assignments.Consistent(tasks, users) {
        ReplaceTaskKeepsConsistent(tasks, users, t, updated);
      }
      tasks := tasks[t := updated];
      r := Success(1);
    }

    /** `getTasks` without paging: the stored documents, in store order, that pass
        the filter built from the query. */
    function GetTasks(q: QueryDtos.QueryDto, parseDate: string -> Option<int>): (r: Result<seq<Doc>>)
      requires Valid()
      reads this
      ensures r.Failure? <==> TaskFilter.BuildFilter(q, parseDate).Failure?
      ensures r.Failure? ==> r.error == Unexpected
      ensures r.Success? ==> forall d :: multiset(r.value)[d] == if Stores(d) && TaskFilter.Admits(q, parseDate, d.task) then 1 else 0
    {
      match TaskFilter.BuildFilter(q, parseDate)
      case Failure(e) => Failure(e)
      case Success(terms) =>
        var found := TaskFilter.Select(Documents(), terms);
        assert forall d :: multiset(found)[d] == if Stores(d) && TaskFilter.Admits(q, parseDate, d.task) then 1 else 0 by {
          forall d ensures multiset(found)[d] == if Stores(d) && TaskFilter.Admits(q, parseDate, d.task) then 1 else 0
          {
            TaskFilter.FilterMeaning(q, parseDate, d.task);
          }
        }
        Success(found)
    }

    /** `getCompletedMonthlyTasksStats`: one row per UTC month of the caller's
        tasks completed since `since`. A caller id that cannot be cast fails. */
    function GetCompletedMonthlyTasksStats(callerSub: string, since: int): (r: Result<seq<MonthlyStats.MonthCount>>)
      requires Valid()
      reads this
      ensures r.Failure? <==> !ObjectIds.IsValid(callerSub)
      ensures r.Failure? ==> r.error == Unexpected
      ensures r.Success? ==>
        var matching := MonthlyStats.Matching(Documents(), ObjectIds.Parse(callerSub), since);
        var months := MonthlyStats.MonthsOf(matching);
        && (forall i, j :: 0 <= i < j < |r.value| ==> MonthlyStats.KeyOf(r.value[i]) != MonthlyStats.KeyOf(r.value[j]))
        && (forall i :: 0 <= i < |r.value| ==> r.value[i].count == multiset(months)[MonthlyStats.KeyOf(r.value[i])] && r.value[i].count > 0)
        && (forall ym :: MonthlyStats.HasKey(r.value, ym) <==> ym in months)
        && MonthlyStats.Total(r.value) == |matching|
    {
      if !ObjectIds.IsValid(callerSub) then Failure(Unexpected)
      else
        var rows := MonthlyStats.Stats(Documents(), ObjectIds.Parse(callerSub), since);
        MonthlyStats.StatsCorrect(Documents(), ObjectIds.Parse(callerSub), since);
        Success(rows)
    }

    /** `createUser`: insert the body as a new user. A failed `save` is a BadRequest;
        a second user with the same e-mail, under a unique index, is a Conflict. */
    method CreateUser(dto: CreateUserDtos.CreateUserDto, newId: Id, errorText: string, now: int)
      returns (r: Result<(Id, User)>)
      requires Valid() && newId !in users && ObjectIds.IsCanonical(newId)
      modifies this
      ensures Valid()
      ensures tasks == old(tasks) && taskOrder == old(taskOrder)
      ensures NewUser(dto, now).Failure? ==>
        r == Failure(BadRequest(errorText)) && users == old(users) && userOrder == old(userOrder)
      ensures NewUser(dto, now).Success? && uniqueEmail && EmailTaken(old(users), dto.email) ==>
        r == Failure(Conflict(UsersService.ConflictMessage(dto.email))) && users == old(users) && userOrder == old(userOrder)
      ensures NewUser(dto, now).Success? && !(uniqueEmail && EmailTaken(old(users), dto.email)) ==>
        && r == Success((newId, NewUser(dto, now).value))
        && users == old(users)[newId := NewUser(dto, now).value]
        && userOrder == old(userOrder) + [newId]
      ensures old(Consistent()) && (forall t :: t in tasks ==> tasks[t].assignedTo != Some(newId)) ==> Consistent()
    {
      var created := NewUser(dto, now);
      if created.Failure? {
        return Failure(UsersService.ClassifyCreateError(None, dto.email, errorText));
      }
      if uniqueEmail && EmailTaken(users, dto.email) {
        return Failure(UsersService.ClassifyCreateError(Some(UsersService.DuplicateKeyCode), dto.email, errorText));
      }
      if Assignments.Consistent(tasks, users) && forall t :: t in tasks ==> tasks[t].assignedTo != Some(newId) {
        InsertUserKeepsConsistent(tasks, users, newId, created.value);
      }
      users := users[newId := created.value];
      userOrder := userOrder + [newId];
      r := Success((newId, created.value));
    }

    /** `findUser`: the first stored user the filter matches, or nothing. */
    function FindUser(matches: User -> bool): (r: Option<(Id, User)>)
      requires Valid()
      reads this
      ensures r.Some? ==> r.value.0 in users && users[r.value.0] == r.value.1 && matches(r.value.1)
      ensures r.None? ==> forall v :: v in users ==> !matches(users[v])
    {
      match UsersService.FirstMatch(userOrder, users, matches, 0)
      case Some(k) => Some((userOrder[k], users[userOrder[k]]))
      case None =>
        assert forall v :: v in users ==> !matches(users[v]) by {
          forall v | v in users ensures !matches(users[v]) {
            var j :| 0 <= j < |userOrder| && userOrder[j] == v;
          }
        }
        None
    }
  }

  /** Some stored user already has this e-mail. */
  predicate EmailTaken(users: UserTable, email: string) {
    exists v :: v in users && users[v].email == email
  }
}
