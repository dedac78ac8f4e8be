# Task scheduler: tasks, users and their assignments

A Dafny model of the service layer of a NestJS + Mongoose task scheduler. Users
create tasks, assign them to users, update them, comment on them and delete them.
They also list tasks through a query filter and ask for monthly statistics of the
tasks they completed. The model covers:

- **Schemas.** The Task document with its embedded Comment, and the User document.
  The model has their `required` checks, their defaults (`status` is `TO_DO`, the
  lists are empty) and their `createdAt`/`updatedAt` timestamps.
- **DTOs.** The sign-up body and the task-list query, each as a validity predicate.
  The password rule is modelled through character counts, with its length taken
  in UTF-16 code units as JavaScript's `length` counts them.
- **The two services** as one class, `Services.Store`. It holds the task and user
  collections. Each collection is a map from `_id` to document plus the order in
  which documents were inserted. MongoDB does not specify the order in which
  `find`/`findOne` scan a collection without a sort; the model assumes insertion
  order. These depend on that assumption: which holder
  `UsersService.FirstHolder` picks when several users list a task, which user
  `findUser` returns when several match (`UsersService.FirstMatch`), the order of
  the documents `getTasks` returns, and the order of the monthly-statistics rows
  (`MonthlyStats.Group` emits them in arrival order; MongoDB's `$group` promises
  no output order).
  Every key is a canonical `_id`, and no user lists a task twice (`Store.Valid`).
  - The state-changing operations are methods with `modifies`: `createTask`,
    `assignTaskToUser`, `updateTask`, `deleteTask`, `addCommentToTask` and
    `createUser`.
  - `findTaskById` is a read-only method. `getTasks`, the monthly statistics and
    `findUser` are functions of the stored state.
- **The cross-collection invariant.** A stored task has `assignedTo = u` exactly
  when user `u` lists it in `assignedTasks` (`Assignments.Consistent`). Every store
  method preserves it, with a stated side condition where an insert could meet a
  dangling reference. This holds because the in-memory tables never fail part-way
  through an operation; see "## Left out".
- **Identifiers.** A valid identifier is 24 hexadecimal digits. `new ObjectId(s)` is
  modelled as canonicalising it to lower case (`ObjectIds.Parse`). So two spellings
  that differ only in case address the same document.
- **Errors.** Thrown exceptions become `Outcomes.Error`:
  - `BadRequest`, `NotFound` and `Conflict` carry the service's message;
  - `Unexpected` is an exception without an HTTP status: a Mongoose validation or
    cast error, or a `TypeError`.
- **`updateOne`.** It runs no validators, and `timestamps: true` adds
  `updatedAt := now` to every update. `modifiedCount` is 0 exactly when the
  document is absent or the update leaves it unchanged.
- **The getTasks filter.** Its terms are built from conditional spreads. A task
  passes when it satisfies every present term: assignee, status, UTC-day windows on
  `createdAt`/`updatedAt`, and a title search. Each day window is the half-open
  range from the day's start to 23:59:59.999. It therefore excludes the day's last
  millisecond (`TaskFilter.DayWindowIff`).
- **The monthly-statistics pipeline.** `$match`, then `$group` by UTC (year, month)
  with a count, then `$project`. It yields distinct keys, exact counts, no empty
  months, and counts that sum to the number of matching tasks.

The user-side helpers `findUserByTaskId`, `unassignTaskFromUser` and
`assignTaskToUser` of the user service are called by the task service but are not
part of the users service file shown. They are modelled as:

- the first user, in store order (assumed to be insertion order), whose
  `assignedTasks` contains the task;
- `$pull` of the task from that user's list;
- `$addToSet` of the task to the new assignee's list.

The clock, the generator of fresh `_id`s, JavaScript date parsing and the library
checks `IsEmail` and `IsDateString` are parameters.

## Model

| member | source | states |
|---|---|---|
| ObjectIds.IsValid | src/tasks/tasks.service.ts:41 | defines `ObjectId.isValid` on a string: exactly 24 hexadecimal digits of either case |
| ObjectIds.LowerHex | src/tasks/tasks.service.ts:45 | a hexadecimal digit is printed as the lower-case digit equal to it ignoring case, so A-F become a-f and a lower-case digit is kept |
| ObjectIds.Parse | src/tasks/tasks.service.ts:45 | a valid id string becomes a 24-digit lower-case identifier |
| ObjectIds.ParseCanonical | src/tasks/tasks.service.ts:45 | an id already in canonical form is its own ObjectId |
| ObjectIds.ParseSameRecord | src/tasks/tasks.service.ts:41-45 | two valid strings address the same document exactly when they agree digit by digit ignoring case |
| ArrayOps.Pull | src/tasks/tasks.service.ts:147-150 | `$pull` removes every occurrence of the element and keeps every other element as often as before; it changes nothing when the element is absent and never lengthens |
| ArrayOps.PullConcat | src/tasks/tasks.service.ts:147-150 | `$pull` works element by element, so the kept elements stay in their order |
| ArrayOps.PullSingle | src/tasks/tasks.service.ts:147-150 | on one element `$pull` either removes it or keeps it |
| ArrayOps.AddToSet | src/tasks/tasks.service.ts:101 | `$addToSet` leaves a list that holds the element unchanged, otherwise appends it at the end |
| ArrayOps.PullIdempotent | src/tasks/tasks.service.ts:88-91 | pulling the same task twice is the same as pulling it once |
| ArrayOps.PullKeepsNoDuplicates | src/tasks/tasks.service.ts:147-150 | a duplicate-free list stays duplicate-free after `$pull` |
| ArrayOps.PullShortensByOne | src/tasks/tasks.service.ts:88-91 | on a duplicate-free list, pulling a present task removes exactly one entry |
| ArrayOps.AddToSetKeepsNoDuplicates | src/tasks/tasks.service.ts:101 | `$addToSet` never introduces a duplicate |
| TaskSchema.HasRequiredFields | src/tasks/models/task.schema.ts:11-37 | defines the schema's `required` checks: non-empty title and description, a creator that is an ObjectId, and comments that pass their own checks |
| TaskSchema.NewTask | src/tasks/models/task.schema.ts:9-38 | creation succeeds exactly when title, description and a castable creator are given; the result has every required field, the DTO's values, status TO_DO, no assignee, no comments, both timestamps `now`; failure has no HTTP status |
| UserSchema.HasRequiredFields | src/users/user.schema.ts:9-22 | defines the schema's `required` checks: non-empty first name, last name, e-mail and password |
| UserSchema.NewUser | src/users/user.schema.ts:7-32 | creation succeeds exactly when the four required strings are non-empty; the user copies the body, has an empty `assignedTasks` and both timestamps `now` |
| UserSchema.ValidDtoCreatesUser | src/users/dto/create-user.dto.ts:11-25 | a body that passes its decorators also passes the schema's `required` checks |
| CreateUserDtos.IsValid | src/users/dto/create-user.dto.ts:11-45 | defines the sign-up body's decorators: non-empty names, a non-empty e-mail of e-mail shape, a non-empty strong password, a role absent or non-empty |
| CreateUserDtos.IsStrongPassword | src/users/dto/create-user.dto.ts:27-36 | defines `IsStrongPassword`: the UTF-16 length and the per-class character counts reach the policy's minimums |
| CreateUserDtos.Count | src/users/dto/create-user.dto.ts:30-35 | a character count never exceeds the length |
| CreateUserDtos.CountPositive | src/users/dto/create-user.dto.ts:30-35 | a count of at least one means some character of that class exists, and conversely |
| CreateUserDtos.Utf16Length | src/users/dto/create-user.dto.ts:27-36 | JavaScript's `length`: the number of characters plus the number of characters above U+FFFF, so between the character count and twice it, equal to it exactly when no character lies above U+FFFF |
| CreateUserDtos.SignUpPasswordRule | src/users/dto/create-user.dto.ts:27-36 | a password is accepted exactly when its length in UTF-16 units is 8 or more and it has a digit, an upper-case and a lower-case letter; no symbol is needed |
| CreateUserDtos.SurrogatePairCountsTwice | src/users/dto/create-user.dto.ts:27-36 | seven characters with one above U+FFFF have length 8 and are accepted |
| CreateUserDtos.ExamplePasswordAccepted | src/users/dto/create-user.dto.ts:27-36 | the documented example `12345678As` is accepted |
| QueryDtos.IsValid | src/tasks/dto/query.dto.ts:16-66 | defines the query's declared rules, each field optional: page at least 1, size at most 20, non-empty enum members for `sortBy`/`sort`, non-empty date strings for the two dates, a non-empty `user` |
| QueryDtos.EmptyQueryIsValid | src/tasks/dto/query.dto.ts:16-66 | every field is optional, so the empty query is valid |
| QueryDtos.SizeHasNoLowerBound | src/tasks/dto/query.dto.ts:24-29 | a size is accepted exactly when it is at most 20, so zero and negative sizes pass |
| QueryDtos.PageStartsAtOne | src/tasks/dto/query.dto.ts:17-22 | a page is accepted exactly when it is at least 1 |
| CivilTime.YearStartStep | src/tasks/tasks.service.ts:241-242 | consecutive years start `DaysInYear` days apart |
| CivilTime.YearForward | src/tasks/tasks.service.ts:241-242 | counting whole years forward lands on the same day, inside a year |
| CivilTime.YearBackward | src/tasks/tasks.service.ts:241-242 | counting whole years backward lands on the same day, inside a year |
| CivilTime.YearAndDay | src/tasks/tasks.service.ts:241-242 | every day number lies in exactly the year returned, at the returned offset |
| CivilTime.MonthFrom | src/tasks/tasks.service.ts:241 | the month found is the one whose day range contains the day of the year |
| CivilTime.YearMonthOf | src/tasks/tasks.service.ts:241-242 | `$year`/`$month` of a timestamp name a month 1..12 whose UTC days contain the timestamp's day |
| CivilTime.DecemberLength | src/tasks/tasks.service.ts:241 | the month table covers the whole year: December ends on its last day |
| TaskFilter.DayStart | src/tasks/tasks.service.ts:166-172 | `setUTCHours(0, 0, 0, 0)` gives the midnight that opens the UTC day of the date: at or before it, less than a day before, a multiple of a day |
| TaskFilter.DayLastMs | src/tasks/tasks.service.ts:167-173 | `setUTCHours(23, 59, 59, 999)` gives the last millisecond of the UTC day of the date |
| TaskFilter.MatchesAnywhere | src/tasks/tasks.service.ts:176-178 | defines the `.*search.*` regular expression with option `i` as a scan of the title for a case-folded literal occurrence |
| TaskFilter.MatchesAnywhereIff | src/tasks/tasks.service.ts:176-178 | the search matches exactly when the title contains it at some position, ignoring ASCII case |
| TaskFilter.MatchesAllIff | src/tasks/tasks.service.ts:160-179 | a filter admits a task exactly when every one of its terms holds |
| TaskFilter.DayWindowIff | src/tasks/tasks.service.ts:164-175 | a timestamp is in the window exactly when it is on the same UTC day and not its last millisecond |
| TaskFilter.BuildFilter | src/tasks/tasks.service.ts:161-179 | a failure has no HTTP status; a built filter has one term per query field that is present and truthy |
| TaskFilter.Admits | src/tasks/tasks.service.ts:161-179 | defines what the query asks of a task field by field: the parsed assignee, the status, the two UTC days without their last millisecond, and a case-insensitive title occurrence |
| TaskFilter.UserPart | src/tasks/tasks.service.ts:162 | the assignee term asks for the parsed `user` id exactly when `user` is truthy |
| TaskFilter.StatusPart | src/tasks/tasks.service.ts:163 | the status term asks for the given status exactly when one is present |
| TaskFilter.CreatedPart | src/tasks/tasks.service.ts:164-169 | the `createdAt` window admits exactly the UTC day of `dateCreated` without its last millisecond |
| TaskFilter.UpdatedPart | src/tasks/tasks.service.ts:170-175 | the `updatedAt` window admits exactly the UTC day of `dateUpdated` without its last millisecond |
| TaskFilter.SearchPart | src/tasks/tasks.service.ts:176-178 | the title term admits exactly the titles containing the search, ignoring ASCII case |
| TaskFilter.BuildFilterFails | src/tasks/tasks.service.ts:162-175 | building the filter fails exactly when a present user id is not valid or a present date cannot be parsed |
| TaskFilter.FilterMeaning | src/tasks/tasks.service.ts:161-179 | the built filter admits a task exactly when it satisfies every present query field, absent fields imposing nothing |
| TaskFilter.EmptyQueryMatchesAll | src/tasks/tasks.service.ts:161-179 | the empty query admits every task |
| TaskFilter.Select | src/tasks/tasks.service.ts:160-179 | the result holds each document the filter admits as often as the collection does, and nothing else |
| MonthlyStats.Counted | src/tasks/tasks.service.ts:230-236 | defines the `$match` stage: assigned to the caller, COMPLETED, and `completedAt` present and at least `since` |
| MonthlyStats.Matching | src/tasks/tasks.service.ts:230-236 | `$match` keeps each of the caller's COMPLETED tasks with `completedAt >= since` as often as the collection holds it, and nothing else |
| MonthlyStats.MonthsOf | src/tasks/tasks.service.ts:240-243 | the group key of each matching task is the UTC (year, month) of its `completedAt` |
| MonthlyStats.Tally | src/tasks/tasks.service.ts:239-247 | defines one document entering `$group`: its bucket's count rises by one, or a new bucket with count 1 opens |
| MonthlyStats.Group | src/tasks/tasks.service.ts:239-247 | defines `$group` with `$count` as tallying the keys in arrival order |
| MonthlyStats.Stats | src/tasks/tasks.service.ts:228-257 | defines the pipeline as `$match`, then the month key of each document, then `$group` |
| MonthlyStats.TallyKeys | src/tasks/tasks.service.ts:239-247 | after a tally the keys are the old keys plus the tallied one |
| MonthlyStats.TallyDistinct | src/tasks/tasks.service.ts:239-247 | a tally never creates a second row for a key |
| MonthlyStats.TallyCounts | src/tasks/tasks.service.ts:244-246 | counting one more key raises that key's count and the total by one and touches no other count |
| MonthlyStats.GroupFacts | src/tasks/tasks.service.ts:239-247 | grouping yields one row per distinct key, no empty row, each count the key's multiplicity, total the number of keys |
| MonthlyStats.StatsCorrect | src/tasks/tasks.service.ts:228-257 | the rows have distinct (year, month), no zero count, each count the number of matching tasks in that month, and the counts sum to the number of matching tasks |
| MonthlyStats.MatchedMonthsAreMonthsOfDocs | src/tasks/tasks.service.ts:230-243 | a month is among the group keys exactly when some matching document was completed in it |
| MonthlyStats.BucketsAreMonthsOfMatchingTasks | src/tasks/tasks.service.ts:228-257 | a month has a row exactly when some matching task was completed in it; months are not zero-filled |
| UsersService.ClassifyCreateError | src/users/users.service.ts:18-24 | error code 11000 gives a Conflict whose message names the e-mail; any other failure gives a BadRequest with the error's text |
| UsersService.FirstMatch | src/users/users.service.ts:27-31 | the position found is the first in store order whose user matches; none means no user matches |
| UsersService.FirstHolder | src/tasks/tasks.service.ts:83-85 | the previous assignee found is a stored user listing the task, and no user before it in store order lists it; none means no user lists it |
| TaskUpdates.ApplyUpdate | src/tasks/tasks.service.ts:115-123 | present fields are written, absent ones kept; COMPLETED stamps `completedAt := now`, any other status or none keeps it; only `updatedAt` changes besides |
| TaskUpdates.WithComment | src/tasks/tasks.service.ts:209-214 | `$push` appends exactly one comment at the end, earlier comments and other fields unchanged |
| TaskUpdates.UpdateKeepsRequired | src/tasks/tasks.service.ts:115-123 | an update writing non-empty strings keeps every required field |
| TaskUpdates.EmptyTitleIsWritten | src/tasks/tasks.service.ts:115-123 | without validators an empty title is stored and the task loses a required field |
| TaskUpdates.CommentKeepsRequired | src/tasks/tasks.service.ts:209-214 | appending a valid comment keeps every required field |
| TaskUpdates.WritesKeepAssignee | src/tasks/tasks.service.ts:115-123 | neither an update nor a comment changes the assignee |
| TaskUpdates.EmptyUpdateModifies | src/tasks/tasks.service.ts:115-127 | an update with no field still modifies the task when the clock has moved |
| TaskUpdates.UpdateIdempotent | src/tasks/tasks.service.ts:115-127 | repeating an update at the same instant modifies nothing |
| Assignments.PullTask | src/tasks/tasks.service.ts:88-91 | defines `unassignTaskFromUser`: `$pull` of the task from one user's list with `updatedAt := now`; an absent user matches nothing |
| Assignments.SetAssignee | src/tasks/tasks.service.ts:94-99 | defines the `updateOne` that points the task at the user, with `updatedAt := now`; an absent task matches nothing |
| Assignments.AddTask | src/tasks/tasks.service.ts:101 | defines the user service's `assignTaskToUser`: `$addToSet` of the task to the user's list, with `updatedAt := now` |
| Assignments.Unassign | src/tasks/tasks.service.ts:83-91 | defines the first step: the task is pulled from the first holder found, if any |
| Assignments.Assign | src/tasks/tasks.service.ts:83-104 | defines the whole table transition: unassign, then point the task at u, then add the task to u's list |
| Assignments.Delete | src/tasks/tasks.service.ts:147-152 | defines the delete transition: pull the task from its assignee's list and remove it from the task table |
| Assignments.PullTaskEffect | src/tasks/tasks.service.ts:88-91 | unassigning removes only that user from the task's holders and touches no other task's holders |
| Assignments.AddTaskEffect | src/tasks/tasks.service.ts:101 | assigning adds only that user (if stored) to the task's holders |
| Assignments.FirstHolderFound | src/tasks/tasks.service.ts:83-87 | a previous assignee is found exactly when some user lists the task, and it is one of them |
| Assignments.ConsistentHolders | src/tasks/models/task.schema.ts:27-31 | under the invariant a task is listed by its stored assignee and by nobody else |
| Assignments.UnassignEffect | src/tasks/tasks.service.ts:83-91 | unassigning keeps every key, touches no other task's holders, and leaves no holder when there was at most one |
| Assignments.AssignOutcome | src/tasks/tasks.service.ts:83-104 | after assignment the task points at u, u lists it, and if at most one user listed it before, u alone lists it now; other tasks keep their holders |
| Assignments.AssignKeepsConsistent | src/tasks/tasks.service.ts:77-108 | assignment preserves the invariant |
| Assignments.ListWritesKeepSets | src/tasks/tasks.service.ts:88-101 | neither `$pull` nor `$addToSet` puts a task into a user's list twice |
| Assignments.AssignKeepsSets | src/tasks/tasks.service.ts:83-104 | after assignment every user's list is still free of duplicates |
| Assignments.DeleteKeepsConsistent | src/tasks/tasks.service.ts:140-152 | deletion preserves the invariant and leaves no user listing the deleted task |
| Assignments.InsertTaskKeepsConsistent | src/tasks/tasks.service.ts:25-37 | a new unassigned task under an id no user lists preserves the invariant |
| Assignments.InsertUserKeepsConsistent | src/users/users.service.ts:15-17 | a new user with an empty list, whom no task names, preserves the invariant |
| Assignments.ReplaceTaskKeepsConsistent | src/tasks/tasks.service.ts:115-123 | rewriting a task without touching its assignee preserves the invariant |
| Assignments.ReassignMovesOneEntry | src/tasks/tasks.service.ts:83-104 | reassigning between two users moves exactly one list entry: the old list shrinks by one, the new one grows by one |
| Services.Store.constructor | src/tasks/tasks.service.ts:20-23 | the store starts empty and consistent |
| Services.Store.CreateTask | src/tasks/tasks.service.ts:25-37 | the body's fields are stored with `createdBy` := caller, under a fresh id at the end of store order; a failed save changes nothing; the invariant is kept |
| Services.Store.FindTaskById | src/tasks/tasks.service.ts:39-75 | a malformed id is a BadRequest, an absent task a NotFound with the id in the message, otherwise the stored document |
| Services.Store.AssignTaskToUser | src/tasks/tasks.service.ts:77-108 | a malformed id is a BadRequest touching nothing; otherwise the tables become the pull/set/add-to-set result, with the task pointing at u and u alone listing it, and the invariant is kept |
| Services.Store.UpdateTask | src/tasks/tasks.service.ts:110-133 | a malformed id is a BadRequest; an absent task or a write that modifies nothing is a NotFound touching nothing; otherwise exactly that task is rewritten |
| Services.Store.DeleteTask | src/tasks/tasks.service.ts:135-156 | BadRequest, then NotFound touching nothing; a task without an assignee fails and is kept; otherwise it leaves its assignee's list and the store, and no user lists it |
| Services.Store.AddCommentToTask | src/tasks/tasks.service.ts:200-219 | a malformed id is a BadRequest, an uncastable caller a failure; otherwise one comment by the caller is appended, and an absent task gives count 0 without error |
| Services.Store.Documents | src/tasks/tasks.service.ts:160 | `find` over the collection returns every stored document exactly once |
| Services.Store.GetTasks | src/tasks/tasks.service.ts:158-198 | the result holds each stored document satisfying every present query field exactly once, and nothing else; it fails exactly when the filter cannot be built |
| Services.Store.GetCompletedMonthlyTasksStats | src/tasks/tasks.service.ts:221-261 | for a castable caller: one row per month with distinct keys, exact positive counts summing to the number of matching tasks |
| Services.Store.CreateUser | src/users/users.service.ts:15-25 | a failed save is a BadRequest, a taken e-mail under a unique index a Conflict naming it, both touching nothing; otherwise the user is stored at the end of store order |
| Services.Store.FindUser | src/users/users.service.ts:27-31 | the user returned is a stored user the filter matches; nothing is returned only when no stored user matches |

## Left out

- Pagination and sorting of `getTasks`: the repository that applies `page`, `size`, `sortBy` and `sort` is not part of this model. `GetTasks` returns every admitted document in store order.
- Regular-expression semantics of `search`: the model matches the search text literally, so metacharacters are not interpreted. Case is folded for ASCII letters only.
- The 12-byte form that `ObjectId.isValid` also accepts: only the 24-hex-digit form is valid here.
- Concurrency: the two writes awaited together by `Promise.all`, and interleaving between requests. The writes are sequential steps.
- The local-time computation of "one year ago": the bound is the parameter `since`.
- JavaScript `Date` parsing: date strings go through the parameter `parseDate`, and an unparseable date makes the query fail.
- Populate and projection options: they are presentation only, such as hiding passwords.
- Timestamps on embedded comments.
- The `completedAt` path: the schema revision shown does not declare it, and Mongoose's default strict mode drops an undeclared path from an `updateOne`. The model assumes a schema that declares `completedAt` as an optional date; under the schema as shown `updateTask` would not store it and the monthly statistics would always be empty.
- Exact Mongoose error texts: failures without an HTTP status are the single error `Unexpected`. The `BadRequest` text of `createUser` is the parameter `errorText`.
- The enum members of `sortBy`/`sort`, and the library checks `IsEmail` and `IsDateString`: these are parameters.
- Non-integer `page`/`size`, and query `status` values outside the enum: the model's `QueryDto` types exclude them. The program does not. No validation pipe runs, so `?status=foo` reaches the filter as `{status: 'foo'}` and matches only documents stored with that exact status, which no operation of this model writes. `page` and `size` reach only the pagination, which is not part of this model.
- Declared DTO validation is not applied by the services: no validation pipe is registered. The DTO predicates state the declared rules.
- Request bodies are taken at their declared DTO shapes: no extra schema fields, and update statuses only from the enum. The services spread the raw body into the store, so a real body can also set `assignedTo`, `status` or `comments` on a task, or `assignedTasks` on a user. Through such a body `createTask`, `updateTask` and `createUser` can break the assignment invariant (`Assignments.Consistent`) that the model's methods keep.
- The unique index on `email`: the schema declares none. `Store.uniqueEmail` says whether the deployed collection has one, so the duplicate-key path is modelled without assuming it.
- Authentication, controllers, the JWT payload (only its `sub` is used, as `callerSub`), bcrypt, and the older duplicate task schema are not part of this model.
- Store failures other than validation, cast and duplicate-key errors, such as a lost connection or a timeout: the in-memory tables never fail. A failure part-way through `assignTaskToUser` (after the `$pull`, before the two writes) or `deleteTask` (after the `$pull`, before the delete) is not represented. `Assignments.Consistent` is preserved only under this assumption: in the program such a failure leaves a task that names a user who no longer lists it.
- Services.Store.GetTasks: states which documents are returned and that each appears once, not their order.
- Services.Store.FindUser: states that the returned user matches, not that it is the first match in store order. `UsersService.FirstMatch` states the order.
