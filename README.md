# Portfolio data-access layer, modelled in Dafny

The portfolio application talks to its database through two near-duplicate
files:

- `lib/database/queries.ts` is the public data-access layer.
- `lib/database/admin-queries.ts` is the one the admin screens import.

Each file has its own copy of `withRetry`. It runs an asynchronous
operation and, when the operation throws, waits and calls itself again with
one retry fewer, up to `MAX_RETRIES = 3` retries. Each file also manages
projects and their technologies, held in the `projects` table and the
`project_technologies` join table, under a different error convention:

- `queries.ts` throws on every failure. It rolls back a half-created
  project when linking its technologies fails, and it deletes join rows
  before the parent row.
- `admin-queries.ts` only logs link failures and never rolls back. Its
  delete and its feedback writes return `false` instead of throwing.

The project has these modules:

- `Retry` (`retry.dfy`) models both copies of `withRetry`. The copies are
  identical.
  - `Attempt`/`WithRetry` is withRetry's recursion over an abstract
    operation whose k-th invocation yields `op(k)`.
  - The lemmas state the budget, first-success-wins, rethrow-last, and
    that an operation which never throws is run once.
  - `IsRun` describes the trace of outcomes a complete call records.
    `RunCons`/`RunOfOne` build such a trace step by step, and
    `RunIsRecursion` ties a recorded trace back to `WithRetry`.
- `Rows` (`rows.dfy`) holds the row types the core uses, with the columns
  the queries read and write, and the partial update of a project row. The
  generated schema types in `lib/supabase/types` are not part of this
  model.
- `Database` (`store.dfy`) models the store client as a class `Store`. It
  holds the tables as `map`s and a `set` of join rows.
  - Every request consults a failure oracle `fault`. Request number k fails
    with `fault(k)` when that is `Some`. The oracle stands for the network
    and the database engine.
  - Otherwise a request behaves as the store is assumed to behave:
    - `.single()` on no row yields `PGRST116`.
    - Inserting a join row for a missing project or technology is a
      foreign-key error (`23503`), and so is deleting a project that join
      rows still refer to.
    - A delete, or an update without `.single()`, whose id matches nothing
      is not an error. The project update uses `.single()`, so on a
      missing id it yields `PGRST116`.
- `Grouping` (`grouping.dfy`) holds reference definitions for grouping
  rows by a key. `Keys` gives the categories in order of first appearance
  and `Members` gives the rows of one category in input order. The lemmas
  say these form a partition that loses nothing.
- `Queries` (`queries.dfy`) models the core of `queries.ts`:
  - the reducers of `getFunFactsByCategory`, `getTechnologiesByCategory`
    and `getPortfolioStats`, as loops whose invariants are the grouping
    predicates;
  - the single-row reads;
  - the project writes;
  - the contact form and the status writes.
- `AdminQueries` (`admin_queries.dfy`) models the core of
  `admin-queries.ts`.
- `Scenarios` (`scenarios.dfy`) composes operations of both files on a
  store whose requests do not fail, or fail once and then no more.

## How the operations are modelled

Each retried operation `Op` is split in two:

- `OpOnce` is one invocation of the operation passed to withRetry.
- `Op(db, ..., retries)` is withRetry's recursion around it, with the
  `retries` still granted. The file's functions grant `MAX_RETRIES`.

`Op` returns a ghost `trace` of the outcomes of its invocations and proves
`IsRun(trace, retries)`: the trace has the shape of withRetry's recursion.
`Retry.RunIsRecursion` says that such a trace is exactly what `WithRetry`
computes for an operation with those outcomes;
`Scenarios.DeleteRecoversFromOneFault` applies it.

Which invocation throws is decided by the store, so each `Op` also ties
`trace[k]` to the requests of attempt k. A read makes one request per
attempt, so attempt k is request `old(requests) + k`. A multi-request
operation returns a ghost `starts`, where attempt k began at request
`starts[k]`.

- `Database.Consecutive` says the first attempt began where the call did
  and each attempt ended where the next began (`Database.AttemptEnd`).
- Each operation also states how many requests attempt k made:
  `CreateWidth`, `UpdateWidth` or `DeleteWidth` of the faults from
  `starts[k]` on. These mirror the branches of one invocation. For
  example, a delete whose link delete fails makes one request, and
  otherwise two. So every `starts[k]` is determined by the fault oracle.
- It then states exactly which faults at those requests make attempt k
  resolve.

The whole multi-step sequence is retried, so the effect of a call is
expressed against the tables before the call (`Tables`):

- `Queries.CreateProject` satisfies `Retried` and `CreateAttempts`.
  - Every failed attempt either was compensated or left one orphan row.
  - Attempt k resolved exactly when `CreateResolves` holds at `starts[k]`.
  - An orphan row remains only if some attempt satisfies `CreateOrphans`:
    its insert got through, its link insert did not, and the compensating
    delete failed too. That delete is the attempt's third request,
    `starts[k] + 2`. When no insert gets through, nothing is orphaned and
    both tables are unchanged (`NoInsertNoWrite`).
- `Queries.UpdateProject` satisfies `UpdateRun`, which includes `Updated`.
  `Queries.DeleteProject` satisfies `Deleted`. These effects are idempotent
  (`UpdatedTwice`, `DeletedTwice`), so any number of failed attempts
  followed by a last one has the effect of a single attempt.
  - After a failed update with a technology list, the project's join rows
    are gone exactly when some attempt got its link delete through
    (`AnyUpdateDeleted`). The row is patched exactly when some attempt got
    its row update through on an existing project (`AnyUpdatePatched`).
  - After a failed delete, the join rows are gone exactly when some
    attempt's link delete got through (`AnyLinksDeleted`).
- In `AdminQueries`, a failed attempt writes nothing. So a whole call does
  exactly what its last attempt does from the original tables.

Some operations never throw. They return `false`, `{ success: false }` or
`undefined`, or only log the error. withRetry then runs them exactly once
(`Retry.NeverThrowingRunsOnce`), so they are modelled as that single
attempt.

Where the code and the natural reading of it differ, the model follows the
code:

- `submitContactForm` reports success even when the `total_connections`
  increment fails. The failure of the increment procedure is only logged
  by `updatePortfolioStat`, so the counter is bumped only if that request
  succeeds.
- The rollback delete in `createProject` of `queries.ts` has its own error
  ignored. When that delete fails, the project row survives; it is the
  orphan of `Queries.LinkOrRollBack`. The retry then creates another row.
  So "the project count is unchanged after the retries are exhausted"
  holds when no request fails (`Queries.RejectedFaultFree`), not in
  general. In general the model bounds the orphans by the number of failed
  attempts, and an orphan remains only if some attempt's compensating
  delete failed after its insert got through.
- The two files write different feedback status vocabularies:
  - `queries.ts` writes read, unread and replied;
  - `admin-queries.ts` writes read, spam and archived.

  Their feedback writes follow different conventions too. In `queries.ts`
  they throw and are retried; in `admin-queries.ts` they return `false`
  and are not retried.

## Model

| member | source | states |
|---|---|---|
| Retry.Attempt | lib/database/queries.ts:44-54 | withRetry from a given invocation on: at least one and at most retries + 1 further invocations; the settled outcome is that of the last invocation; every earlier invocation threw; a thrown result means the whole budget was spent |
| Retry.AtMostFourInvocations | lib/database/queries.ts:41-54 | with MAX_RETRIES the operation is invoked at least once and at most 4 times |
| Retry.ResolvesIff | lib/database/queries.ts:44-54 | withRetry resolves if and only if some invocation within the budget resolves |
| Retry.FirstResolutionWins | lib/database/queries.ts:44-54 | the first resolving invocation's value is returned and no invocation follows it |
| Retry.AllThrowRethrowsLast | lib/database/queries.ts:44-54 | when every invocation throws, retries + 1 invocations are made and the last error is rethrown |
| Retry.SucceedsOnLastAttempt | lib/database/admin-queries.ts:11-21 | an operation that fails n - 1 times and then resolves resolves after n invocations under a budget of n attempts |
| Retry.NeverThrowingRunsOnce | lib/database/admin-queries.ts:74-92 | an operation that swallows its errors is invoked exactly once, so there is never a retry |
| Retry.RunOfOne | lib/database/queries.ts:44-54 | a first invocation that resolves, or one made with no retry left, is a complete run |
| Retry.RunCons | lib/database/queries.ts:47-50 | a thrown invocation followed by a complete run with one retry fewer is a complete run with the same last outcome |
| Retry.RunIsRecursion | lib/database/queries.ts:44-54 | a recorded complete run is exactly what withRetry computes for an operation producing those outcomes |
| Rows.PatchIdempotent | lib/database/queries.ts:218 | applying the same partial update twice equals applying it once |
| Rows.EmptyPatchKeepsRow | lib/database/queries.ts:218 | an update with no column set leaves the row as it was |
| Database.LinksOf | lib/database/queries.ts:205 | the join rows built for a project are exactly one per supplied technology id, each carrying that project's id |
| Database.LinkedToLinksOf | lib/database/queries.ts:223-232 | after its join rows are replaced, a project is linked to exactly the listed technology ids |
| Database.LinkedToWithout | lib/database/queries.ts:241 | after its join rows are deleted, a project is linked to nothing, and every other project keeps exactly the technologies it had |
| Database.ConsecutiveFrom | lib/database/queries.ts:44-54 | attempt k of a retried call begins at least k requests after the call does, since each attempt makes at least one request |
| Database.ConsecutiveBelow | lib/database/queries.ts:44-54 | every attempt of a retried call begins before the call ends |
| Database.ConsecutiveWithin | lib/database/queries.ts:44-54 | every attempt of a retried call begins within the requests of the call |
| Database.AttemptEndCons | lib/database/queries.ts:47-50 | prefixing a failed attempt to the attempts of the retry: the first attempt ends where the retry begins, and every later attempt ends where it did |
| Database.Store.InsertProject | lib/database/queries.ts:200 | the insert either fails and writes nothing, or adds one row under a fresh id and returns it |
| Database.Store.UpdateProject | lib/database/queries.ts:218 | a failed update writes nothing; an update of a missing id yields the no-rows error; otherwise the row is patched and returned |
| Database.Store.SelectProject | lib/database/queries.ts:255-259 | the row when it exists, the no-rows error when it does not, the oracle's error when the request fails |
| Database.Store.SelectProjectWithTechnologies | lib/database/admin-queries.ts:96-108 | as SelectProject, with the technologies linked to the project embedded |
| Database.Store.DeleteProject | lib/database/queries.ts:245 | deleting a project still referenced by join rows is a foreign-key error and writes nothing; otherwise the row is removed, if any |
| Database.Store.DeleteLinks | lib/database/queries.ts:241 | removes every join row of the project, or fails and removes none |
| Database.Store.InsertLinks | lib/database/queries.ts:205-206 | adds exactly the project's supplied links, or fails (oracle or foreign key) and adds none |
| Database.Store.SelectProfile | lib/database/queries.ts:59 | the single profile row, or the no-rows error when there is not exactly one |
| Database.Store.InsertConnection | lib/database/queries.ts:404-412 | adds the given connection row under a fresh id, or fails and adds nothing |
| Database.Store.IncrementStat | lib/database/queries.ts:591-594 | the named counter grows by the increment (from 0 when absent), or the request fails and nothing changes |
| Database.Store.UpdateReviewStatus | lib/database/queries.ts:513 | sets the status of the matching review, or fails and changes nothing |
| Database.Store.UpdateFeedback | lib/database/queries.ts:559-562 | sets the status and, when given, the reply of the one matching feedback row in one request, or fails and changes nothing |
| Database.Store.DeleteFeedback | lib/database/queries.ts:549 | removes the matching feedback row, or fails and changes nothing |
| Grouping.KeysDistinct | lib/database/queries.ts:284 | no category names two groups |
| Grouping.MembersExact | lib/database/queries.ts:283-297 | an element is in the group of a category if and only if it is in the input and has that category |
| Grouping.KeysCover | lib/database/queries.ts:288-294 | every element's category names a group, and no group is empty |
| Grouping.NoKeyNoMembers | lib/database/queries.ts:288-294 | a category that names no group has no members |
| Grouping.KeysOfPrefix | lib/database/queries.ts:283-297 | the categories of a prefix of the input are a prefix of the categories |
| Grouping.FirstAppearance | lib/database/queries.ts:288-294 | an element whose category has not appeared before opens the next group, so groups are in order of first appearance |
| Grouping.TotalSizeSnoc | lib/database/queries.ts:286-294 | adding an element adds one to the total size of the groups that include its category |
| Grouping.CountPreserved | lib/database/queries.ts:283-297 | the group sizes add up to the input length: no element is lost or duplicated |
| Grouping.GroupStep | lib/database/queries.ts:284-294 | one more element either joins the group of its category or opens a new last group, and no other group changes |
| Grouping.Find | lib/database/queries.ts:284 | the index of the first group with the category, or the number of groups when there is none |
| Queries.FactGroupsJoin | lib/database/queries.ts:286-287 | pushing a fact onto the existing group of its category keeps the accumulator the grouping of the facts seen |
| Queries.FactGroupsOpen | lib/database/queries.ts:288-294 | appending a new group for an unseen category, with that fact's icon name, keeps the accumulator the grouping of the facts seen |
| Queries.GroupFunFactsByCategory | lib/database/queries.ts:283-297 | one group per category in order of first appearance; each holds exactly that category's facts in input order; each is non-empty; its icon name is that of its first fact |
| Queries.FactInExactlyOneGroup | lib/database/queries.ts:283-297 | group categories are distinct, and each fact lies in the group of its own category and in no other |
| Queries.TechGroupsJoin | lib/database/queries.ts:332-333 | pushing a technology onto the existing group of its category keeps the accumulator the grouping of those seen |
| Queries.TechGroupsOpen | lib/database/queries.ts:334-339 | opening a group for an unseen category keeps the accumulator the grouping of those seen |
| Queries.GroupTechnologiesByCategory | lib/database/queries.ts:328-342 | one group per category ("Other" for a missing or empty one) in order of first appearance, each holding exactly its technologies in input order |
| Queries.TechInExactlyOneGroup | lib/database/queries.ts:328-342 | group categories are distinct, and each technology lies in its own category's group and in no other |
| Queries.FalsyCategoryIsOther | lib/database/queries.ts:329 | a technology with a missing or empty category is in group "Other" and in no other group |
| Queries.CollectPortfolioStats | lib/database/queries.ts:579-585 | the keys are exactly the metric names of the rows, and each name maps to the value of its last row |
| Queries.GetProjectByIdOnce | lib/database/queries.ts:255-266 | a found row is returned; the no-rows error yields null; any other store error is thrown with its message |
| Queries.GetProjectById | lib/database/queries.ts:253-268 | a complete retry run in which attempt k threw exactly when request k met an error other than no-rows; a non-null result is the stored row; null for an existing row only via a no-rows error; a thrown result means every attempt met a real error |
| Queries.GetProfileOnce | lib/database/queries.ts:57-69 | the single profile, null for the no-rows error, a thrown "Failed to fetch profile" for any other error |
| Queries.GetProfile | lib/database/queries.ts:57-70 | a complete retry run in which attempt k threw exactly when request k met an error other than no-rows; a non-null result is the single profile; null while there is exactly one profile only via a no-rows error; throwing means every attempt met a real error |
| Queries.ExtendsTwice | lib/database/queries.ts:199-213 | rows added by a failed attempt and by later attempts add up to rows added by the whole call |
| Queries.RetriedOnce | lib/database/queries.ts:199-213 | an attempt that resolves, or the last one granted, is a complete createProject with its effect |
| Queries.RetriedAgain | lib/database/queries.ts:199-213 | a failed attempt followed by a complete createProject with one retry fewer is a complete createProject: writes compose, and orphans grow by at most one |
| Queries.WritesAgain | lib/database/queries.ts:207-210 | a failed attempt adds no link and at most one row, so the whole call's writes are the later attempts' writes plus that row |
| Queries.OutcomeAgain | lib/database/queries.ts:207-210 | a failed attempt adds at most one orphan; a fault-free failed attempt means an unknown technology, so a fault-free call still resolves exactly when the technologies are known |
| Queries.LinkOrRollBack | lib/database/queries.ts:204-211 | on success exactly one join row per supplied id is added, in one request; on a link failure no link is added and the new row is deleted, in a second request, except that the row survives (orphan) exactly when that second request fails; success if and only if the link request does not fail and every technology is known |
| Queries.InsertFailedAttempt | lib/database/queries.ts:199-202 | an attempt whose insert fails makes one request, writes nothing and does not resolve |
| Queries.ResolvedAttempt | lib/database/queries.ts:199-213 | an attempt whose requests all get through with known technologies adds the new row and exactly its links |
| Queries.RolledBackAttempt | lib/database/queries.ts:204-210 | an attempt whose link insert fails and whose compensating delete gets through makes three requests, leaves the tables as they were and orphans nothing |
| Queries.OrphanedAttempt | lib/database/queries.ts:204-210 | an attempt whose insert gets through and whose link insert and compensating delete both fail makes three requests and leaves the new row, with no link, as its orphan |
| Queries.CreateProjectOnce | lib/database/queries.ts:199-213 | a failed insert throws "Error creating project" and writes nothing; a link failure throws "Error linking technologies to project" with no link added; success returns the new row under a fresh id with its links; the attempt makes one request when its insert fails or no technology is given, two when it resolves and three otherwise; it resolves exactly when its insert and, with technologies, its link request get through and every technology is known; it leaves the new row behind exactly when its insert got through and its link insert and its third request, the compensating delete, both failed |
| Queries.CreateAttemptsOne | lib/database/queries.ts:44-54 | the attempts of a call settled by its first attempt of createProject |
| Queries.CreateAttemptsAgain | lib/database/queries.ts:47-50 | a failed createProject attempt followed by the attempts of the retry makes the attempts of the whole call, the retry beginning exactly where the failed attempt's requests end |
| Queries.NoInsertNoWrite | lib/database/queries.ts:199-211 | when the insert of every attempt fails, the call throws, no row is orphaned and both tables are as before |
| Queries.RollbackFailedAgain | lib/database/queries.ts:207-210 | the orphans of a failed attempt and of the attempts after it each come from an attempt whose insert got through and whose link insert and compensating delete both failed |
| Queries.CreateProject | lib/database/queries.ts:198-214 | the whole retried call: a complete run; on success the new row and exactly its links are added; on a throw no link is added; at most one orphan per failed attempt; attempt k begins at request `starts[k]`, the first where the call began and each later one where the one before ended, after exactly the requests the branches of one invocation make; it resolves exactly when its insert and link requests get through and the technologies are known; an orphan remains only if some attempt's insert got through and its link insert and compensating delete both failed |
| Queries.CreatedFaultFree | lib/database/queries.ts:198-214 | with no failing request and known technologies: one attempt, a fresh row with the given columns, and exactly its links |
| Queries.RejectedFaultFree | lib/database/queries.ts:198-214 | with no failing request and an unknown technology: every retry spent, each attempt rolled back, a throw, and both tables unchanged |
| Queries.UpdatedTwice | lib/database/queries.ts:216-237 | a failed attempt followed by another attempt has the effect of a single attempt |
| Queries.UpdateAttemptsOne | lib/database/queries.ts:44-54 | the attempts of an updateProject call settled by its first attempt |
| Queries.UpdateAttemptsAgain | lib/database/queries.ts:47-50 | a failed updateProject attempt followed by the attempts of the retry makes the attempts of the whole call |
| Queries.UpdateDeletedAgain | lib/database/queries.ts:222-227 | after failed attempts the project's join rows are deleted exactly when some attempt got its link delete through, deleting twice being deleting once |
| Queries.UpdatePatchedAgain | lib/database/queries.ts:218 | after several attempts the row is patched exactly when some attempt got its row update through, patching twice being patching once |
| Queries.UpdateRunOne | lib/database/queries.ts:44-54 | an updateProject attempt that resolves, or the last one granted, is a complete call with its effect |
| Queries.UpdateRunAgain | lib/database/queries.ts:47-50 | a failed updateProject attempt followed by a complete call with one retry fewer is a complete call |
| Queries.ReplaceLinks | lib/database/queries.ts:222-233 | a failed delete throws with the links intact, after one request; a failed insert after the delete throws with the project's links cleared; success leaves exactly the supplied links (none for an empty list, with no insert request); other projects' links are untouched; success if and only if the delete and, for a non-empty list, the insert get through and every technology is known |
| Queries.UpdateProjectOnce | lib/database/queries.ts:217-236 | a missing project or failed row update throws "Error updating project" and writes nothing; without a technology list the links are untouched; with one they are replaced as ReplaceLinks says, and a throw leaves the project's links deleted exactly when the row update and the link delete got through; the attempt makes one, two or three requests as far as it gets; it resolves exactly when the project exists and each of its requests gets through (`UpdateResolves`) |
| Queries.UpdateProject | lib/database/queries.ts:216-237 | the retried call (`UpdateRun`) has the effect of one attempt; attempt k begins at request `starts[k]`, where the one before ended after exactly the requests it made, and resolves exactly when `UpdateResolves` holds there; after a throw with a technology list the project's links are gone exactly when some attempt got its link delete through; the row is patched exactly when some attempt got its row update through on an existing project; with no failing request, an existing project and known technologies, it resolves on the first attempt |
| Queries.DeletedTwice | lib/database/queries.ts:239-251 | a failed attempt followed by another attempt has the effect of a single attempt |
| Queries.DeleteProjectOnce | lib/database/queries.ts:240-250 | join rows go first; a failed join delete throws with the project row and links intact, after one request; a failed row delete throws with the row kept, after two; success returns true with the row and all its join rows gone; it resolves exactly when both of its requests get through |
| Queries.DeleteProject | lib/database/queries.ts:239-251 | the retried call: success removes the row and its join rows and nothing else; a throw keeps the row, with its join rows gone exactly when some attempt's link delete got through; attempt k begins at request `starts[k]`, where the one before ended after one request (failed link delete) or two, and resolves exactly when its two requests get through |
| Queries.DeleteAttemptsOne | lib/database/queries.ts:44-54 | the attempts of a deleteProject call settled by its first attempt |
| Queries.DeleteAttemptsAgain | lib/database/queries.ts:47-50 | a failed deleteProject attempt followed by the attempts of the retry makes the attempts of the whole call |
| Queries.LinksDeletedAgain | lib/database/queries.ts:241-243 | after failed attempts the project's join rows are deleted exactly when some attempt's link delete got through |
| Queries.UpdatePortfolioStat | lib/database/queries.ts:589-600 | one request; the counter grows by the increment when it succeeds and is unchanged otherwise; it never throws |
| Queries.SubmitContactForm | lib/database/queries.ts:396-426 | a failed insert is reported as success false "Failed to submit form" with nothing written; otherwise an unread connection with the form's fields is added, success is true, and total_connections grows by 1 exactly when the increment request succeeds |
| Queries.ApproveReview | lib/database/queries.ts:511-522 | true if and only if the write went through, which sets the review's status to approved; one request, never a retry |
| Queries.WriteFeedbackOnce | lib/database/queries.ts:558-567 | one update of the feedback row, or a throw with the given context and nothing written |
| Queries.WriteFeedback | lib/database/queries.ts:557-568 | a complete retry run in which an attempt threw exactly when its request failed; success writes the row once; a throw leaves it untouched after retries + 1 attempts |
| Queries.UpdateFeedbackStatus | lib/database/queries.ts:537-545 | attempt k threw exactly when request k failed; writes exactly the given status (read, unread or replied) to the one row or throws after 4 failed attempts |
| Queries.ReplyToFeedback | lib/database/queries.ts:557-568 | attempt k threw exactly when request k failed; sets the reply message and status replied in one update of the one row, or throws after 4 failed attempts with the row untouched |
| Queries.DeleteFeedbackOnce | lib/database/queries.ts:548-554 | removes the row and returns true, or throws "Error deleting feedback" with nothing removed |
| Queries.DeleteFeedback | lib/database/queries.ts:547-555 | a complete retry run; an attempt threw exactly when its request failed; success removes the row; a throw leaves it |
| AdminQueries.CreateProjectOnce | lib/database/admin-queries.ts:25-42 | a failed insert throws and writes nothing; otherwise the new row is returned whether or not the link insert succeeded, and the links are added only when it did |
| AdminQueries.CreateProject | lib/database/admin-queries.ts:24-43 | a complete retry run in which every earlier attempt met a failed insert; the call does what its last attempt does from the original tables; a good first insert means one attempt |
| AdminQueries.NoRollback | lib/database/admin-queries.ts:32-41 | once the insert succeeds, the project is kept and returned even when some technology is unknown, and it has no link: no rollback |
| AdminQueries.LinksAfterUpdate | lib/database/admin-queries.ts:53-68 | the join rows left by the two logged link steps, as far as each got |
| AdminQueries.LinkedToAfterUpdate | lib/database/admin-queries.ts:53-68 | the project ends linked to exactly the requested ids only when both steps succeed; after a failed insert it has none; after a failed delete it keeps its old ones as well |
| AdminQueries.UpdateProjectOnce | lib/database/admin-queries.ts:46-71 | a failed or empty row update throws and writes nothing; otherwise the patched row is returned whatever the two link steps did |
| AdminQueries.UpdateProject | lib/database/admin-queries.ts:45-72 | the retried call does what its last attempt does from the original tables; earlier attempts all hit a failed or empty row update; a good first update means one attempt |
| AdminQueries.DeleteProject | lib/database/admin-queries.ts:74-92 | true if and only if both deletes went through; a failed join delete returns false with both tables untouched; a failed row delete returns false with the row kept; never a retry |
| AdminQueries.GetProjectByIdOnce | lib/database/admin-queries.ts:95-118 | the project with its technologies, null for the no-rows error, a throw for any other error |
| AdminQueries.GetProjectById | lib/database/admin-queries.ts:94-119 | a complete retry run in which an attempt threw exactly when it met an error other than no-rows; without a failing first request, one attempt returns the row with its technologies, or null |
| AdminQueries.UpdateFeedbackStatus | lib/database/admin-queries.ts:122-136 | true if and only if the one update went through, which writes exactly the given status (read, spam or archived); false leaves the row untouched |
| AdminQueries.DeleteFeedback | lib/database/admin-queries.ts:138-149 | true if and only if the delete went through; false leaves the row |
| AdminQueries.ReplyToFeedback | lib/database/admin-queries.ts:166-180 | true if and only if the single update setting the reply and status replied went through; false leaves the row untouched; one request |
| Scenarios.CreateThenDelete | lib/database/queries.ts:198-251 | on a store that does not fail, creating a project with known technologies and deleting it leaves both tables as they were |
| Scenarios.DeletedProjectIsNotFound | lib/database/queries.ts:253-268 | after create and delete, looking the project up yields null |
| Scenarios.UpdateReplacesLinks | lib/database/queries.ts:216-237 | on a store that does not fail, updating with a list links the project to exactly the listed technologies and leaves other projects' links alone |
| Scenarios.AdminUpdateWithUnknownTechnology | lib/database/admin-queries.ts:53-70 | the admin update with an unknown technology returns the patched row and leaves the project with no link at all |
| Scenarios.CreateWithUnknownTechnology | lib/database/queries.ts:204-211 | with an unknown technology every one of the 4 attempts is rolled back and the call throws with both tables unchanged |
| Scenarios.AdminCreateWithUnknownTechnology | lib/database/admin-queries.ts:32-41 | the admin create with an unknown technology keeps and returns the new row, with no link at all |
| Scenarios.ReplyMarksReplied | lib/database/queries.ts:557-568 | replying to an existing row marks it replied and stores the message, keeping its content, in one request |
| Scenarios.LookupRecoversFromOneFault | lib/database/queries.ts:253-268 | a lookup whose first request meets a real error, on a store that then stops failing, returns the row or null after exactly two requests |
| Scenarios.DeleteRecoversFromOneFault | lib/database/queries.ts:239-251 | a delete whose first request fails, on a store that then stops failing, returns true after two attempts with the row and its links gone, as withRetry does for such an operation |
| Scenarios.EmptyUpdateRecoversFromOneFault | lib/database/queries.ts:216-237 | an update with no column and no technology list whose first request fails returns the row unchanged on the retry |
| Scenarios.CreateRecoversFromOneFault | lib/database/queries.ts:198-214 | a createProject without technologies whose first request fails inserts the project on the retry |
| Scenarios.UpdateWithUnknownTechnology | lib/database/queries.ts:216-237 | on a store that does not fail, an update with an unknown technology throws after 4 attempts with the row patched and the project linked to nothing |
| Scenarios.CreateWhenInsertsFail | lib/database/queries.ts:198-214 | when every request fails, createProject throws with no orphan and both tables unchanged |
| Scenarios.DeleteRecoversFromProjectDeleteFault | lib/database/queries.ts:239-251 | a delete whose project delete fails once settles on its second attempt, which begins two requests later, with the row and its links gone after four requests |
| Scenarios.UpdateRecoversFromLinkDeleteFault | lib/database/queries.ts:216-237 | an update whose link delete fails once settles on its second attempt, which begins two requests later, returning the patched row with exactly the listed links |
| Scenarios.CreateAfterOrphan | lib/database/queries.ts:198-214 | a createProject whose first link insert and compensating delete fail settles on its second attempt, which begins three requests later, with at most one orphan and exactly the new project's links added, after five requests |

## Left out

- The plain list reads are left out. They add nothing beyond a select and
  the throw-on-error convention already modelled by the single-row reads.
  In `queries.ts` these are `getExperiences`, `getFeaturedProjects`,
  `getAllProjects`, `getAllTechnologies`, `getEducation`,
  `getCertifications`, `getApprovedTestimonials`, `getConnections`,
  `getPendingReviews`, `getFeedback` and `getFeedbackWithSenderInfo`. In
  `admin-queries.ts` it is `getFeedbackWithSenderInfo`.
- The per-project technology enrichment with `Promise.all` in
  `getFeaturedProjects`/`getAllProjects` is left out, because it is
  concurrency.
- `updateConnectionStatus`, `deleteConnection` and `deleteReview` in
  `queries.ts` are left out. They have the same one-write `false`-on-error
  shape as `approveReview`, which is modelled.
- The reducers are modelled on the rows as fetched. The fetch, its
  `.order(...)` and its throw are the single-read pattern already modelled.
  The order the store returns the rows in is the order of the input.
- The delay between attempts (`RETRY_DELAY`, `setTimeout`) is left out.
  Only invocations are counted.
- The `updated_at` timestamps written by the admin feedback writes are left
  out. Clocks are not modelled.
- Console logging is left out.
- The store client itself is not part of this model. `Database.Store`
  states the behaviour assumed of it, including the `increment_stat`
  procedure as an abstract counter increment.
- Column types beyond the ones used are left out, and so are
  `created_at`, ordering columns in queries, the authentication handlers,
  the React hooks and the admin screens.
- Concurrent calls are left out. Each operation runs against a store no
  one else changes meanwhile.
- Queries.CreateProject: the promise that the project count is unchanged
  after the retries are exhausted is proved only for a store whose
  requests do not fail (`Queries.RejectedFaultFree`). In general the code
  ignores the rollback's own error. So the model bounds the orphan rows by
  the failed attempts, and it proves that orphans remain only after an
  attempt whose insert got through and whose link insert and compensating
  delete failed (`CreateOrphans`).
- Queries.CreateProject: the converse is not stated. The model does not
  say that each attempt satisfying `CreateOrphans` leaves exactly one row
  behind, nor which id it has, only that the orphans number at most the
  failed attempts. The per-attempt statement is in `CreateProjectOnce`.
- Join rows are a set. A technology id listed twice yields one join row,
  and inserting a pair that already exists succeeds and changes nothing. A
  table keyed on the pair would reject both with a unique-violation error
  (`23505`). The difference matters for the admin `updateProject`
  (`lib/database/admin-queries.ts:53-68`) when its delete failed and its
  insert then re-adds old pairs: under a keyed table the insert would fail
  and only the old links would remain. `Database.Store.InsertLinks`,
  `AdminQueries.UpdatedOnce`, `AdminQueries.UpdateProjectOnce` and `AdminQueries.LinkedToAfterUpdate`
  rely on the set reading there. Every member that inserts a list with a
  repeated id relies on it too, such as `Queries.CreateProject` and
  `Scenarios.UpdateReplacesLinks`.
- A request that errors is assumed to have written nothing. A response
  lost after the database committed the write is not modelled. Every
  primitive of `Database.Store` states this. `Queries.CreateProject`
  relies on it ("on a throw no link is added"), as do
  `Queries.UpdatedTwice`, `Queries.DeletedTwice` and the `AdminQueries`
  calls that do what their last attempt does.
- Queries.SubmitContactForm: the promise that `total_connections` grows by
  exactly 1 on success holds only when the increment request succeeds,
  because `updatePortfolioStat` only logs its failure.
