/** The administrative data-access file: its own copy of withRetry, project
    writes that only log a failed link step (no rollback, no throw), a
    boolean delete, a read of one project with its technologies, and the
    feedback writes that report failure as `false`.

    An operation that returns `false` instead of throwing never makes the
    enclosing withRetry retry (Retry.NeverThrowingRunsOnce), so it is
    modelled as its single attempt. */
module AdminQueries {
  import opened Rows
  import opened Database
  import opened Retry

  // ---------------------------------------------------------------------
  // Projects
  // ---------------------------------------------------------------------

  /** What one attempt of createProject does, from tables `t` to tables `u`:
      a failed insert throws and writes nothing; otherwise the new project is
      returned, whatever becomes of the join insert, whose failure is only
      logged. The links are added only when that insert succeeds. */
  ghost predicate CreatedOnce(db: Store, t: Tables, u: Tables, fields: ProjectFields, techIds: seq<Id>, r: Outcome<Project>)
  {
    if db.fault(t.requests).Some? then
      r == Threw("Error creating project: " + db.fault(t.requests).value.message) &&
      u == t.(requests := t.requests + 1)
    else
      r == Returned(Project(t.nextId, fields)) &&
      u.projects == t.projects[t.nextId := fields] && u.nextId == t.nextId + 1 &&
      u.links == t.links + (if |techIds| > 0 && db.fault(t.requests + 1).None? && KnownTechnologies(db.technologies, techIds)
                            then LinksOf(t.nextId, techIds) else {}) &&
      u.requests == t.requests + (if |techIds| > 0 then 2 else 1)
  }

  /** One invocation of the operation createProject wraps. */
  method CreateProjectOnce(db: Store, fields: ProjectFields, techIds: seq<Id>) returns (r: Outcome<Project>)
    requires db.Valid()
    modifies db`projects, db`links, db`nextId, db`requests
    ensures db.Valid()
    ensures CreatedOnce(db, old(TablesOf(db)), TablesOf(db), fields, techIds, r)
  {
    var inserted := db.InsertProject(fields);
    if inserted.Err? {
      r := Threw("Error creating project: " + inserted.error.message);
      return;
    }
    if |techIds| > 0 {
      var _ := db.InsertLinks(inserted.data.id, techIds);  // the error is only logged
    }
    r := Returned(inserted.data);
  }

  /** createProject: withRetry around the attempt, as withRetry's own
      recursion (createProject grants MAX_RETRIES). Only a failed insert
      throws, and it writes nothing, so the retries leave no trace in the
      tables: the call does what its last attempt does from the original
      tables. In particular the project is never rolled back: once its
      insert gets through, it is kept and returned, linked or not. */
  method CreateProject(db: Store, fields: ProjectFields, techIds: seq<Id>, retries: nat)
    returns (r: Outcome<Project>, ghost trace: seq<Outcome<Project>>)
    requires db.Valid()
    modifies db`projects, db`links, db`nextId, db`requests
    ensures db.Valid()
    ensures IsRun(trace, retries) && r == Last(trace)
    ensures forall k :: old(db.requests) <= k < old(db.requests) + |trace| - 1 ==> db.fault(k).Some?
    ensures CreatedOnce(db, old(TablesOf(db)).(requests := old(db.requests) + |trace| - 1), TablesOf(db), fields, techIds, r)
    ensures db.fault(old(db.requests)).None? ==> |trace| == 1
    decreases retries
  {
    ghost var t := TablesOf(db);
    r := CreateProjectOnce(db, fields, techIds);
    if r.Threw? && retries > 0 {
      ghost var first := r;
      ghost var rest;
      r, rest := CreateProject(db, fields, techIds, retries - 1);
      RunCons(first, rest, retries);
      trace := [first] + rest;
    } else {
      RunOfOne(r, retries);
      trace := [r];
    }
  }

  /** An attempt whose insert gets through resolves with the new row even
      when some technology id is unknown: the project then exists with no
      link at all instead of being rolled back. */
  lemma NoRollback(db: Store, t: Tables, u: Tables, fields: ProjectFields, techIds: seq<Id>, r: Outcome<Project>)
    requires CreatedOnce(db, t, u, fields, techIds, r)
    requires db.fault(t.requests).None? && LinkedTo(t.links, t.nextId) == {}
    requires !KnownTechnologies(db.technologies, techIds)
    ensures r == Returned(Project(t.nextId, fields)) && t.nextId in u.projects
    ensures LinkedTo(u.links, t.nextId) == {}
  {
    var unknown :| unknown in techIds && unknown !in db.technologies;
  }

  /** The join rows an update leaves behind: the project's old links when the
      delete failed, none when it succeeded, plus the requested ones when the
      insert succeeded. */
  function LinksAfterUpdate(links: set<Link>, id: Id, techIds: seq<Id>, deleted: bool, inserted: bool): set<Link>
  {
    (if deleted then Without(links, id) else links) + (if inserted then LinksOf(id, techIds) else {})
  }

  /** The technologies of the project after an update: exactly the requested
      ones only when both link steps succeeded; none after a failed insert;
      the old ones together with the requested ones after a failed delete. */
  lemma LinkedToAfterUpdate(links: set<Link>, id: Id, techIds: seq<Id>, deleted: bool, inserted: bool)
    ensures LinkedTo(LinksAfterUpdate(links, id, techIds, deleted, inserted), id)
         == (if deleted then {} else LinkedTo(links, id)) + (if inserted then set t | t in techIds else {})
  {
    var after := LinksAfterUpdate(links, id, techIds, deleted, inserted);
    var expected := (if deleted then {} else LinkedTo(links, id)) + (if inserted then set t | t in techIds else {});
    forall t | t in expected ensures t in LinkedTo(after, id) {
      if inserted && t in techIds {
        assert Link(id, t) in after;
      } else {
        assert Link(id, t) in links;
      }
    }
  }

  /** What one attempt of updateProject does, from tables `t` to tables `u`:
      a failed or empty row update throws and writes nothing; otherwise the
      patched row is returned, and when a technology list is given the join
      rows are replaced as far as the two link requests got, their failures
      being only logged. */
  ghost predicate UpdatedOnce(db: Store, t: Tables, u: Tables, id: Id, patch: ProjectPatch, techIds: Option<seq<Id>>,
                              r: Outcome<Project>)
  {
    if db.fault(t.requests).Some? || id !in t.projects then
      r == Threw("Error updating project: " +
                 (if db.fault(t.requests).Some? then db.fault(t.requests).value.message else NO_ROWS_MESSAGE)) &&
      u == t.(requests := t.requests + 1)
    else
      r == Returned(Project(id, Patched(t.projects[id], patch))) &&
      u.projects == t.projects[id := Patched(t.projects[id], patch)] && u.nextId == t.nextId &&
      (techIds.None? ==> u.links == t.links && u.requests == t.requests + 1) &&
      (techIds.Some? ==>
         u.links == LinksAfterUpdate(t.links, id, techIds.value, db.fault(t.requests + 1).None?,
                                     |techIds.value| > 0 && db.fault(t.requests + 2).None? &&
                                     KnownTechnologies(db.technologies, techIds.value)) &&
         u.requests == t.requests + (if |techIds.value| > 0 then 3 else 2))
  }

  /** One invocation of the operation updateProject wraps. */
  method UpdateProjectOnce(db: Store, id: Id, patch: ProjectPatch, techIds: Option<seq<Id>>) returns (r: Outcome<Project>)
    requires db.Valid()
    modifies db`projects, db`links, db`requests
    ensures db.Valid()
    ensures UpdatedOnce(db, old(TablesOf(db)), TablesOf(db), id, patch, techIds, r)
  {
    var updated := db.UpdateProject(id, patch);
    if updated.Err? {
      r := Threw("Error updating project: " + updated.error.message);
      return;
    }
    if techIds.Some? {
      var _ := db.DeleteLinks(id);  // the error is only logged
      if |techIds.value| > 0 {
        var _ := db.InsertLinks(id, techIds.value);  // the error is only logged
      }
    }
    r := Returned(updated.data);
  }

  /** updateProject: withRetry around the attempt (updateProject grants
      MAX_RETRIES). Only the row update throws, and then nothing was written,
      so the call does what its last attempt does from the original tables. */
  method UpdateProject(db: Store, id: Id, patch: ProjectPatch, techIds: Option<seq<Id>>, retries: nat)
    returns (r: Outcome<Project>, ghost trace: seq<Outcome<Project>>)
    requires db.Valid()
    modifies db`projects, db`links, db`requests
    ensures db.Valid()
    ensures IsRun(trace, retries) && r == Last(trace)
    ensures forall k :: old(db.requests) <= k < old(db.requests) + |trace| - 1 ==> db.fault(k).Some? || id !in old(db.projects)
    ensures UpdatedOnce(db, old(TablesOf(db)).(requests := old(db.requests) + |trace| - 1), TablesOf(db), id, patch, techIds, r)
    ensures db.fault(old(db.requests)).None? && id in old(db.projects) ==> |trace| == 1
    decreases retries
  {
    r := UpdateProjectOnce(db, id, patch, techIds);
    if r.Threw? && retries > 0 {
      ghost var first := r;
      ghost var rest;
      r, rest := UpdateProject(db, id, patch, techIds, retries - 1);
      RunCons(first, rest, retries);
      trace := [first] + rest;
    } else {
      RunOfOne(r, retries);
      trace := [r];
    }
  }

  /** deleteProject: the join rows first, then the project; a failure of
      either step is returned as `false`, and a failed first step leaves
      both tables as they were. It never throws, so it is one attempt. */
  method DeleteProject(db: Store, id: Id) returns (ok: bool)
    requires db.Valid()
    modifies db`projects, db`links, db`requests
    ensures db.Valid()
    ensures ok <==> db.FaultFree(old(db.requests), old(db.requests) + 2)
    ensures ok ==> db.projects == old(db.projects) - {id}
    ensures !ok ==> db.projects == old(db.projects)
    ensures db.fault(old(db.requests)).Some? ==> db.links == old(db.links) && db.requests == old(db.requests) + 1
    ensures db.fault(old(db.requests)).None? ==> db.links == Without(old(db.links), id) && db.requests == old(db.requests) + 2
  {
    var techError := db.DeleteLinks(id);
    if techError.Some? {
      return false;
    }
    LinkedToWithout(old(db.links), id);
    var error := db.DeleteProject(id);
    if error.Some? {
      return false;
    }
    assert db.FaultFree(old(db.requests), old(db.requests) + 2) by {
      forall k | old(db.requests) <= k < old(db.requests) + 2 ensures db.fault(k).None? {
        if k == old(db.requests) + 1 {
        }
      }
    }
    return true;
  }

  /** One invocation of the operation getProjectById wraps: the project with
      its technologies, null when there is no such row. */
  method GetProjectByIdOnce(db: Store, id: Id) returns (r: Outcome<Option<ProjectWithTechnologies>>)
    modifies db`requests
    ensures db.requests == old(db.requests) + 1
    ensures Raises(old(db.Pending())) ==>
      r == Threw("Error fetching project by ID: " + old(db.Pending()).value.message)
    ensures !Raises(old(db.Pending())) ==>
      r == Returned(if old(db.Pending()).None? && id in db.projects
                    then Some(ProjectWithTechnologies(Project(id, db.projects[id]), db.TechnologiesOf(id)))
                    else None)
  {
    var res := db.SelectProjectWithTechnologies(id);
    if res.Err? {
      if res.error.code == NO_ROWS {
        return Returned(None);
      }
      return Threw("Error fetching project by ID: " + res.error.message);
    }
    r := Returned(Some(res.data));
  }

  /** getProjectById: withRetry around the read (getProjectById grants
      MAX_RETRIES). A missing row is null at once; other errors are retried. */
  method GetProjectById(db: Store, id: Id, retries: nat)
    returns (r: Outcome<Option<ProjectWithTechnologies>>, ghost trace: seq<Outcome<Option<ProjectWithTechnologies>>>)
    modifies db`requests
    ensures IsRun(trace, retries) && r == Last(trace)
    ensures db.requests == old(db.requests) + |trace|
    ensures forall k :: 0 <= k < |trace| ==> (trace[k].Threw? <==> Raises(db.fault(old(db.requests) + k)))
    ensures r.Returned? && r.value.Some? ==>
      id in db.projects && r.value.value == ProjectWithTechnologies(Project(id, db.projects[id]), db.TechnologiesOf(id))
    ensures r == Returned(None) ==> id !in db.projects || db.fault(db.requests - 1).Some?
    ensures db.FaultFree(old(db.requests), old(db.requests) + 1) ==>
      |trace| == 1 &&
      r == Returned(if id in db.projects then Some(ProjectWithTechnologies(Project(id, db.projects[id]), db.TechnologiesOf(id))) else None)
    decreases retries
  {
    r := GetProjectByIdOnce(db, id);
    if r.Threw? && retries > 0 {
      ghost var first := r;
      ghost var rest;
      r, rest := GetProjectById(db, id, retries - 1);
      RunCons(first, rest, retries);
      trace := [first] + rest;
      forall k | 0 <= k < |trace| ensures trace[k].Threw? <==> Raises(db.fault(old(db.requests) + k)) {
        if k > 0 {
          assert trace[k] == rest[k - 1];
        }
      }
    } else {
      RunOfOne(r, retries);
      trace := [r];
    }
  }

  // ---------------------------------------------------------------------
  // Feedback
  // ---------------------------------------------------------------------

  /** updateFeedbackStatus with the {read, spam, archived} vocabulary: one
      update of the one row, `false` on a store error. */
  method UpdateFeedbackStatus(db: Store, id: Id, status: FeedbackStatus) returns (ok: bool)
    requires status == FeedbackRead || status == Spam || status == Archived
    modifies db`feedback, db`requests
    ensures db.requests == old(db.requests) + 1
    ensures ok <==> db.fault(old(db.requests)).None?
    ensures ok ==> db.feedback == FeedbackWritten(old(db.feedback), id, status, None)
    ensures !ok ==> db.feedback == old(db.feedback)
  {
    var error := db.UpdateFeedback(id, status, None);
    ok := error.None?;
  }

  /** deleteFeedback: `false` on a store error. */
  method DeleteFeedback(db: Store, id: Id) returns (ok: bool)
    modifies db`feedback, db`requests
    ensures db.requests == old(db.requests) + 1
    ensures ok <==> db.fault(old(db.requests)).None?
    ensures ok ==> db.feedback == old(db.feedback) - {id}
    ensures !ok ==> db.feedback == old(db.feedback)
  {
    var error := db.DeleteFeedback(id);
    ok := error.None?;
  }

  /** replyToFeedback: the reply message and the status "replied" in one
      update of the one row, `false` on a store error. */
  method ReplyToFeedback(db: Store, id: Id, replyMessage: string) returns (ok: bool)
    modifies db`feedback, db`requests
    ensures db.requests == old(db.requests) + 1
    ensures ok <==> db.fault(old(db.requests)).None?
    ensures ok ==> db.feedback == FeedbackWritten(old(db.feedback), id, FeedbackReplied, Some(replyMessage))
    ensures !ok ==> db.feedback == old(db.feedback)
  {
    var error := db.UpdateFeedback(id, FeedbackReplied, Some(replyMessage));
    ok := error.None?;
  }
}
