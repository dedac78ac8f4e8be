/** The task and user tables and the cross-table bookkeeping of
    src/tasks/tasks.service.ts: a task names at most one assignee, and a user lists
    the tasks assigned to them. The functions here are the table transitions the
    service's methods perform; the lemmas say what each does to the two-sided
    relation "task.assignedTo = u exactly when u lists the task". */
module Assignments {
  import opened Outcomes
  import ObjectIds
  import opened TaskSchema
  import opened UserSchema
  import ArrayOps
  import UsersService

  type Id = ObjectIds.Id
  type TaskTable = map<Id, Task>
  type UserTable = map<Id, User>

  /** `order` lists each key of a table exactly once: the store's natural order. */
  ghost predicate IsOrderOf(order: seq<Id>, keys: set<Id>) {
    ArrayOps.NoDuplicates(order) && forall x :: x in order <==> x in keys
  }

  /** Every key of a collection is a canonical `_id`. */
  ghost predicate KeysCanonical(keys: set<Id>) {
    forall k :: k in keys ==> ObjectIds.IsCanonical(k)
  }

  /** No user lists a task twice. */
  ghost predicate ListsAreSets(users: UserTable) {
    forall v :: v in users ==> ArrayOps.NoDuplicates(users[v].assignedTasks)
  }

  /** The users whose `assignedTasks` contains `t`. */
  function Holders(users: UserTable, t: Id): set<Id> {
    set v | v in users && t in users[v].assignedTasks
  }

  /** The relation holds for one task and one user. */
  ghost predicate AgreeOn(tasks: TaskTable, users: UserTable, t: Id, u: Id)
    requires t in tasks && u in users
  {
    tasks[t].assignedTo == Some(u) <==> t in users[u].assignedTasks
  }

  /** The two-sided invariant over every stored task and user. */
  ghost predicate Consistent(tasks: TaskTable, users: UserTable) {
    forall t, u :: t in tasks && u in users ==> AgreeOn(tasks, users, t, u)
  }

  /** `unassignTaskFromUser(t, v)`: `$pull` t from v's list; a missing user matches
      nothing. `timestamps: true` stamps `updatedAt`. */
  function PullTask(users: UserTable, v: Id, t: Id, now: int): UserTable {
    if v in users then
      users[v := users[v].(assignedTasks := ArrayOps.Pull(users[v].assignedTasks, t), updatedAt := now)]
    else users
  }

  /** `assignTaskToUser(t, u)` of the user service: `$addToSet` t to u's list. */
  function AddTask(users: UserTable, u: Id, t: Id, now: int): UserTable {
    if u in users then
      users[u := users[u].(assignedTasks := ArrayOps.AddToSet(users[u].assignedTasks, t), updatedAt := now)]
    else users
  }

  /** `updateOne({_id: t}, {assignedTo: u})`; a missing task matches nothing. */
  function SetAssignee(tasks: TaskTable, t: Id, u: Id, now: int): TaskTable {
    if t in tasks then tasks[t := tasks[t].(assignedTo := Some(u), updatedAt := now)] else tasks
  }

  /** The whole of `assignTaskToUser` on the two tables: pull t from the first user
      listing it, point the task at u, add t to u's list. */
  function Assign(tasks: TaskTable, users: UserTable, order: seq<Id>, t: Id, u: Id, now: int): (TaskTable, UserTable)
    requires forall i :: 0 <= i < |order| ==> order[i] in users
  {
    (SetAssignee(tasks, t, u, now), AddTask(Unassign(users, order, t, now), u, t, now))
  }

  /** The first step of `assignTaskToUser`: `$pull` t from the first user, in store
      order, whose list contains it. */
  function Unassign(users: UserTable, order: seq<Id>, t: Id, now: int): UserTable
    requires forall i :: 0 <= i < |order| ==> order[i] in users
  {
    var prev := UsersService.FirstHolder(order, users, t);
    if prev.Some? then PullTask(users, prev.value, t, now) else users
  }

  lemma PullTaskEffect(users: UserTable, v: Id, t: Id, now: int, x: Id)
    ensures PullTask(users, v, t, now).Keys == users.Keys
    ensures Holders(PullTask(users, v, t, now), x) == if x == t then Holders(users, t) - {v} else Holders(users, x)
  {
  }

  lemma AddTaskEffect(users: UserTable, u: Id, t: Id, now: int, x: Id)
    ensures AddTask(users, u, t, now).Keys == users.Keys
    ensures Holders(AddTask(users, u, t, now), x) ==
      if x == t && u in users then Holders(users, t) + {u} else Holders(users, x)
  {
  }

  /** Neither `$pull` nor `$addToSet` puts a duplicate into a list. */
  lemma ListWritesKeepSets(users: UserTable, v: Id, t: Id, now: int)
    requires ListsAreSets(users)
    ensures ListsAreSets(PullTask(users, v, t, now))
    ensures ListsAreSets(AddTask(users, v, t, now))
  {
    if v in users {
      ArrayOps.PullKeepsNoDuplicates(users[v].assignedTasks, t);
      ArrayOps.AddToSetKeepsNoDuplicates(users[v].assignedTasks, t);
    }
  }

  /** Assignment keeps every list duplicate-free and every key in place. */
  lemma AssignKeepsSets(tasks: TaskTable, users: UserTable, order: seq<Id>, t: Id, u: Id, now: int)
    requires forall i :: 0 <= i < |order| ==> order[i] in users
    requires ListsAreSets(users)
    ensures ListsAreSets(Assign(tasks, users, order, t, u, now).1)
  {
    var prev := UsersService.FirstHolder(order, users, t);
    if prev.Some? {
      ListWritesKeepSets(users, prev.value, t, now);
    }
    ListWritesKeepSets(Unassign(users, order, t, now), u, t, now);
  }

  /** The first holder in store order exists exactly when some user lists the task. */
  lemma FirstHolderFound(order: seq<Id>, users: UserTable, t: Id)
    requires IsOrderOf(order, users.Keys)
    ensures UsersService.FirstHolder(order, users, t).None? <==> Holders(users, t) == {}
    ensures UsersService.FirstHolder(order, users, t).Some? ==>
      UsersService.FirstHolder(order, users, t).value in Holders(users, t)
  {
    var r := UsersService.FirstHolder(order, users, t);
    if r.Some? {
      assert r.value in Holders(users, t);
    } else {
      forall v | v in users ensures v !in Holders(users, t) {
        assert v in order;
        var j :| 0 <= j < |order| && order[j] == v;
      }
    }
  }

  /** Under the invariant a stored task is listed by its assignee and by nobody else. */
  lemma ConsistentHolders(tasks: TaskTable, users: UserTable, t: Id)
    requires Consistent(tasks, users) && t in tasks
    ensures Holders(users, t) ==
      if tasks[t].assignedTo.Some? && tasks[t].assignedTo.value in users then {tasks[t].assignedTo.value} else {}
  {
    forall v | v in users ensures v in Holders(users, t) <==> tasks[t].assignedTo == Some(v) {
      assert AgreeOn(tasks, users, t, v);
    }
  }

  /** The outcome of `assignTaskToUser`: the task points at u, u lists the task, and
      when at most one user listed it before, u is now the only one. */
  lemma AssignOutcome(tasks: TaskTable, users: UserTable, order: seq<Id>, t: Id, u: Id, now: int)
    requires IsOrderOf(order, users.Keys)
    ensures var (tasks', users') := Assign(tasks, users, order, t, u, now);
      && tasks'.Keys == tasks.Keys && users'.Keys == users.Keys
      && (t in tasks ==> tasks'[t].assignedTo == Some(u))
      && (u in users ==> t in users'[u].assignedTasks)
      && (|Holders(users, t)| <= 1 ==> Holders(users', t) == if u in users then {u} else {})
      && (forall x :: x != t ==> Holders(users', x) == Holders(users, x))
  {
    var pulled := Unassign(users, order, t, now);
    var users' := AddTask(pulled, u, t, now);
    UnassignEffect(users, order, t, now);
    AddTaskEffect(pulled, u, t, now, t);
    forall x | x != t ensures Holders(users', x) == Holders(users, x) {
      AddTaskEffect(pulled, u, t, now, x);
    }
    assert Assign(tasks, users, order, t, u, now) == (SetAssignee(tasks, t, u, now), users');
  }

  /** Unassigning keeps every key, touches no other task's holders, and leaves no
      holder of t when there was at most one. */
  lemma UnassignEffect(users: UserTable, order: seq<Id>, t: Id, now: int)
    requires IsOrderOf(order, users.Keys)
    ensures Unassign(users, order, t, now).Keys == users.Keys
    ensures forall x :: x != t ==> Holders(Unassign(users, order, t, now), x) == Holders(users, x)
    ensures |Holders(users, t)| <= 1 ==> Holders(Unassign(users, order, t, now), t) == {}
  {
    var prev := UsersService.FirstHolder(order, users, t);
    FirstHolderFound(order, users, t);
    if prev.Some? {
      forall x | x != t ensures Holders(PullTask(users, prev.value, t, now), x) == Holders(users, x) {
        PullTaskEffect(users, prev.value, t, now, x);
      }
      PullTaskEffect(users, prev.value, t, now, t);
      if |Holders(users, t)| <= 1 {
        SingletonOrEmpty(Holders(users, t), prev.value);
      }
    }
  }

  lemma SingletonOrEmpty(s: set<Id>, v: Id)
    requires |s| <= 1 && v in s
    ensures s - {v} == {}
  {
    assert s == (s - {v}) + {v};
  }

  /** `assignTaskToUser` keeps the invariant. */
  lemma AssignKeepsConsistent(tasks: TaskTable, users: UserTable, order: seq<Id>, t: Id, u: Id, now: int)
    requires IsOrderOf(order, users.Keys) && Consistent(tasks, users)
    ensures var (tasks', users') := Assign(tasks, users, order, t, u, now); Consistent(tasks', users')
  {
    var (tasks', users') := Assign(tasks, users, order, t, u, now);
    AssignOutcome(tasks, users, order, t, u, now);
    if t in tasks {
      ConsistentHolders(tasks, users, t);
    }
    forall x, w | x in tasks' && w in users' ensures AgreeOn(tasks', users', x, w) {
      assert w in Holders(users', x) <==> x in users'[w].assignedTasks;
      if x != t {
        assert AgreeOn(tasks, users, x, w);
        assert w in Holders(users, x) <==> x in users[w].assignedTasks;
      }
    }
  }

  /** `deleteTask` on the tables: pull the task from its assignee's list, then remove it. */
  function Delete(tasks: TaskTable, users: UserTable, t: Id, now: int): (TaskTable, UserTable)
    requires t in tasks && tasks[t].assignedTo.Some?
  {
    (tasks - {t}, PullTask(users, tasks[t].assignedTo.value, t, now))
  }

  /** Deleting keeps the invariant and leaves no user listing the deleted task. */
  lemma DeleteKeepsConsistent(tasks: TaskTable, users: UserTable, t: Id, now: int)
    requires t in tasks && tasks[t].assignedTo.Some?
    requires Consistent(tasks, users)
    ensures var (tasks', users') := Delete(tasks, users, t, now);
      Consistent(tasks', users') && Holders(users', t) == {}
  {
    var (tasks', users') := Delete(tasks, users, t, now);
    var v := tasks[t].assignedTo.value;
    ConsistentHolders(tasks, users, t);
    PullTaskEffect(users, v, t, now, t);
    forall x, w | x in tasks' && w in users' ensures AgreeOn(tasks', users', x, w) {
      PullTaskEffect(users, v, t, now, x);
      assert AgreeOn(tasks, users, x, w);
      assert w in Holders(users', x) <==> x in users'[w].assignedTasks;
      assert w in Holders(users, x) <==> x in users[w].assignedTasks;
    }
  }

  /** Storing a new unassigned task under an id no user lists keeps the invariant. */
  lemma InsertTaskKeepsConsistent(tasks: TaskTable, users: UserTable, id: Id, task: Task)
    requires Consistent(tasks, users)
    requires id !in tasks && Holders(users, id) == {} && task.assignedTo == None
    ensures Consistent(tasks[id := task], users)
  {
    var tasks' := tasks[id := task];
    forall t, u | t in tasks' && u in users ensures AgreeOn(tasks', users, t, u) {
      if t == id {
        assert u !in Holders(users, id);
      } else {
        assert AgreeOn(tasks, users, t, u);
      }
    }
  }

  /** Storing a new user with an empty list under an id no task points at keeps the
      invariant. */
  lemma InsertUserKeepsConsistent(tasks: TaskTable, users: UserTable, id: Id, user: User)
    requires Consistent(tasks, users)
    requires id !in users && user.assignedTasks == []
    requires forall t :: t in tasks ==> tasks[t].assignedTo != Some(id)
    ensures Consistent(tasks, users[id := user])
  {
    var users' := users[id := user];
    forall t, u | t in tasks && u in users' ensures AgreeOn(tasks, users', t, u) {
      if u != id {
        assert AgreeOn(tasks, users, t, u);
      }
    }
  }

  /** Rewriting a stored task without touching its assignee keeps the invariant. */
  lemma ReplaceTaskKeepsConsistent(tasks: TaskTable, users: UserTable, id: Id, task: Task)
    requires Consistent(tasks, users)
    requires id in tasks && task.assignedTo == tasks[id].assignedTo
    ensures Consistent(tasks[id := task], users)
  {
    var tasks' := tasks[id := task];
    forall t, u | t in tasks' && u in users ensures AgreeOn(tasks', users, t, u) {
      assert AgreeOn(tasks, users, t, u);
    }
  }

  /** Reassigning from one user to another on duplicate-free lists moves exactly
      one entry: the old holder's list shrinks by one and the new one's grows by one. */
  lemma ReassignMovesOneEntry(tasks: TaskTable, users: UserTable, order: seq<Id>, t: Id, u1: Id, u2: Id, now: int)
    requires IsOrderOf(order, users.Keys)
    requires Holders(users, t) == {u1} && u2 in users && u1 != u2
    requires ArrayOps.NoDuplicates(users[u1].assignedTasks)
    ensures var users' := Assign(tasks, users, order, t, u2, now).1;
      && t !in users'[u1].assignedTasks && t in users'[u2].assignedTasks
      && |users'[u1].assignedTasks| == |users[u1].assignedTasks| - 1
      && |users'[u2].assignedTasks| == |users[u2].assignedTasks| + 1
  {
    FirstHolderFound(order, users, t);
    assert u1 in Holders(users, t);
    assert UsersService.FirstHolder(order, users, t) == Some(u1);
    ArrayOps.PullShortensByOne(users[u1].assignedTasks, t);
    assert u2 !in Holders(users, t);
  }
}
