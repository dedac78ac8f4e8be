/** The pure parts of src/users/users.service.ts: how `createUser` classifies a
    failed insertion, and the "first stored user that matches" lookup behind
    `findUser` and the user-side helpers the task service calls. */
module UsersService {
  import opened Outcomes
  import ObjectIds
  import opened UserSchema
  import Text

  type Id = ObjectIds.Id

  /** MongoDB's duplicate-key error code. */
  const DuplicateKeyCode: int := 11000

  function ConflictMessage(email: string): string {
    "A user with the email " + email + " already exists!"
  }

  /** The `catch` of `createUser`: a store error with code 11000 becomes a Conflict
      naming the e-mail; every other failure becomes a BadRequest carrying the
      error's own text. */
  function ClassifyCreateError(code: Option<int>, email: string, errorText: string): (e: Error)
    ensures e.Conflict? <==> code == Some(DuplicateKeyCode)
    ensures e.Conflict? ==> exists i :: Text.OccursAt(e.message, email, i)
    ensures !e.Conflict? ==> e == BadRequest(errorText)
  {
    if code == Some(DuplicateKeyCode) then
      var m := ConflictMessage(email);
      assert Text.OccursAt(m, email, 22);
      Conflict(m)
    else BadRequest(errorText)
  }

  /** The position in store order of the first user that satisfies `matches`, if
      any: what `findOne` returns for a filter. */
  function FirstMatch(order: seq<Id>, users: map<Id, User>, matches: User -> bool, from: nat): (r: Option<nat>)
    requires forall i :: 0 <= i < |order| ==> order[i] in users
    requires from <= |order|
    ensures r.Some? ==> from <= r.value < |order| && matches(users[order[r.value]])
    ensures r.Some? ==> forall j :: from <= j < r.value ==> !matches(users[order[j]])
    ensures r.None? ==> forall j :: from <= j < |order| ==> !matches(users[order[j]])
    decreases |order| - from
  {
    if from == |order| then None
    else if matches(users[order[from]]) then Some(from)
    else FirstMatch(order, users, matches, from + 1)
  }

  /** The user filter `{ assignedTasks: t }`. */
  function Lists(t: Id): User -> bool {
    (u: User) => t in u.assignedTasks
  }

  /** Position `k` of `order` is the first whose user lists `t`: none before it does. */
  predicate IsFirstHolderAt(order: seq<Id>, users: map<Id, User>, t: Id, k: int)
    requires forall i :: 0 <= i < |order| ==> order[i] in users
  {
    && 0 <= k < |order|
    && forall j :: 0 <= j < k ==> t !in users[order[j]].assignedTasks
  }

  /** `findUserByTaskId(t)`: the first user in store order whose list contains `t`. */
  function FirstHolder(order: seq<Id>, users: map<Id, User>, t: Id): (r: Option<Id>)
    requires forall i :: 0 <= i < |order| ==> order[i] in users
    ensures r.Some? ==> r.value in users && t in users[r.value].assignedTasks
    ensures r.Some? ==> exists k :: IsFirstHolderAt(order, users, t, k) && order[k] == r.value
    ensures r.None? ==> forall j :: 0 <= j < |order| ==> t !in users[order[j]].assignedTasks
  {
    var k := FirstMatch(order, users, Lists(t), 0);
    if k.Some? then
      assert IsFirstHolderAt(order, users, t, k.value) by {
        forall j | 0 <= j < k.value ensures t !in users[order[j]].assignedTasks {
          assert !Lists(t)(users[order[j]]);
        }
      }
      Some(order[k.value])
    else None
  }
}
