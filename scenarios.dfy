/** End-to-end uses of the two query files on a store whose requests do not
    fail, or fail once and then no more, and the behaviour each file
    promises then. */
module Scenarios {
  import opened Rows
  import opened Database
  import opened Retry
  import Queries
  import AdminQueries

  /** Creating a project with known technologies and deleting it again
      leaves the project tables as they were. */
  method CreateThenDelete(db: Store, fields: ProjectFields, techIds: seq<Id>) returns (created: Outcome<Project>)
    requires db.Valid() && db.Reliable(db.requests) && KnownTechnologies(db.technologies, techIds)
    modifies db`projects, db`links, db`nextId, db`requests
    ensures db.Valid() && db.Reliable(db.requests)
    ensures created.Returned? && created.value.fields == fields && created.value.id !in old(db.projects)
    ensures db.projects == old(db.projects) && db.links == old(db.links)
  {
    ghost var t := TablesOf(db);
    ghost var trace, orphans, starts;
    created, trace, orphans, starts := Queries.CreateProject(db, fields, techIds, MAX_RETRIES);
    Queries.CreatedFaultFree(db, t, TablesOf(db), fields, techIds, MAX_RETRIES, created, trace, orphans);
    var id := created.value.id;
    assert Without(db.links, id) == t.links by {
      assert forall l :: l in t.links ==> l.project in t.projects;
    }
    ghost var deleted, deleteStarts;
    var gone;
    gone, deleted, deleteStarts := Queries.DeleteProject(db, id, MAX_RETRIES);
    assert db.projects == t.projects;
  }

  /** After a project is created and deleted again, looking it up finds
      nothing. */
  method DeletedProjectIsNotFound(db: Store, fields: ProjectFields, techIds: seq<Id>)
    returns (created: Outcome<Project>, found: Outcome<Option<Project>>)
    requires db.Valid() && db.Reliable(db.requests) && KnownTechnologies(db.technologies, techIds)
    modifies db`projects, db`links, db`nextId, db`requests
    ensures created.Returned? && found == Returned(None)
  {
    created := CreateThenDelete(db, fields, techIds);
    ghost var lookups;
    found, lookups := Queries.GetProjectById(db, created.value.id, MAX_RETRIES);
  }

  /** An update with a technology list on an existing project leaves that
      project linked to exactly the listed technologies, and every other
      project's links alone. */
  method UpdateReplacesLinks(db: Store, id: Id, patch: ProjectPatch, techIds: seq<Id>) returns (r: Outcome<Project>)
    requires db.Valid() && db.Reliable(db.requests) && id in db.projects && KnownTechnologies(db.technologies, techIds)
    modifies db`projects, db`links, db`requests
    ensures db.Valid()
    ensures r == Returned(Project(id, Patched(old(db.projects)[id], patch)))
    ensures LinkedTo(db.links, id) == set t | t in techIds
    ensures Without(db.links, id) == Without(old(db.links), id)
  {
    ghost var trace, starts;
    r, trace, starts := Queries.UpdateProject(db, id, patch, Some(techIds), MAX_RETRIES);
    LinkedToLinksOf(old(db.links), id, techIds);
  }

  /** The administrative update with an unknown technology: the row is
      patched and returned, and the project is left with no technology at
      all rather than the requested ones. */
  method AdminUpdateWithUnknownTechnology(db: Store, id: Id, patch: ProjectPatch, techIds: seq<Id>) returns (r: Outcome<Project>)
    requires db.Valid() && db.Reliable(db.requests) && id in db.projects
    requires !KnownTechnologies(db.technologies, techIds)
    modifies db`projects, db`links, db`requests
    ensures db.Valid()
    ensures r == Returned(Project(id, Patched(old(db.projects)[id], patch)))
    ensures LinkedTo(db.links, id) == {}
  {
    ghost var trace;
    r, trace := AdminQueries.UpdateProject(db, id, patch, Some(techIds), MAX_RETRIES);
    AdminQueries.LinkedToAfterUpdate(old(db.links), id, techIds, true, false);
  }

  /** createProject with an unknown technology: every attempt inserts the
      project, fails to link it and rolls it back, so after all four
      attempts the last error is thrown and the tables are as before. */
  method CreateWithUnknownTechnology(db: Store, fields: ProjectFields, techIds: seq<Id>)
    returns (r: Outcome<Project>, ghost trace: seq<Outcome<Project>>)
    requires db.Valid() && db.Reliable(db.requests) && !KnownTechnologies(db.technologies, techIds)
    modifies db`projects, db`links, db`nextId, db`requests
    ensures db.Valid()
    ensures r.Threw? && |trace| == MAX_RETRIES + 1
    ensures db.projects == old(db.projects) && db.links == old(db.links)
  {
    ghost var t := TablesOf(db);
    ghost var orphans, starts;
    r, trace, orphans, starts := Queries.CreateProject(db, fields, techIds, MAX_RETRIES);
    Queries.RejectedFaultFree(db, t, TablesOf(db), fields, techIds, MAX_RETRIES, r, trace, orphans);
  }

  /** The administrative createProject with an unknown technology: the
      project is kept and returned, with no technology linked, not even the
      known ones. */
  method AdminCreateWithUnknownTechnology(db: Store, fields: ProjectFields, techIds: seq<Id>)
    returns (r: Outcome<Project>)
    requires db.Valid() && db.Reliable(db.requests) && !KnownTechnologies(db.technologies, techIds)
    modifies db`projects, db`links, db`nextId, db`requests
    ensures db.Valid()
    ensures r == Returned(Project(old(db.nextId), fields))
    ensures db.projects == old(db.projects)[old(db.nextId) := fields]
    ensures LinkedTo(db.links, old(db.nextId)) == {}
  {
    ghost var t := TablesOf(db);
    ghost var trace;
    r, trace := AdminQueries.CreateProject(db, fields, techIds, MAX_RETRIES);
    assert LinkedTo(t.links, t.nextId) == {} by {
      assert forall l :: l in t.links ==> l.project in t.projects;
    }
    AdminQueries.NoRollback(db, t, TablesOf(db), fields, techIds, r);
  }

  /** Replying to an existing feedback row marks it replied and stores the
      message, in one request. */
  method ReplyMarksReplied(db: Store, id: Id, message: string) returns (r: Outcome<bool>)
    requires db.Reliable(db.requests) && id in db.feedback
    modifies db`feedback, db`requests
    ensures r == Returned(true)
    ensures id in db.feedback && db.feedback[id].status == FeedbackReplied && db.feedback[id].replyMessage == Some(message)
    ensures db.feedback[id].content == old(db.feedback)[id].content
    ensures db.requests == old(db.requests) + 1
  {
    ghost var trace;
    r, trace := Queries.ReplyToFeedback(db, id, message);
  }

  /** A lookup whose first request fails with a real error is retried, and
      the second invocation settles it. */
  method LookupRecoversFromOneFault(db: Store, id: Id) returns (r: Outcome<Option<Project>>)
    requires Raises(db.fault(db.requests)) && db.Reliable(db.requests + 1)
    modifies db`requests
    ensures r == Returned(if id in db.projects then Some(Project(id, db.projects[id])) else None)
    ensures db.requests == old(db.requests) + 2
  {
    ghost var trace;
    r, trace := Queries.GetProjectById(db, id, MAX_RETRIES);
    assert trace[0].Threw?;
    assert !Raises(db.fault(old(db.requests) + 1));
    assert |trace| > 1 && trace[1].Returned?;
    assert |trace| == 2 && db.fault(db.requests - 1).None?;
    assert r.Returned?;
    if r.value.None? {
      assert id !in db.projects;
    }
  }

  /** A delete whose first request fails is retried, and the retry removes
      the project and its links: the call is withRetry settling on its
      second invocation. */
  method DeleteRecoversFromOneFault(db: Store, id: Id) returns (r: Outcome<bool>, ghost trace: seq<Outcome<bool>>)
    requires db.Valid() && db.fault(db.requests).Some? && db.Reliable(db.requests + 1)
    modifies db`projects, db`links, db`requests
    ensures r == Returned(true) && |trace| == 2
    ensures db.projects == old(db.projects) - {id} && LinkedTo(db.links, id) == {}
    ensures WithRetry((k: nat) => if k < |trace| then trace[k] else r, MAX_RETRIES) == Run(r, 2)
  {
    ghost var starts;
    r, trace, starts := Queries.DeleteProject(db, id, MAX_RETRIES);
    assert !db.FaultFree(starts[0], starts[0] + 2);
    assert |trace| > 1 && db.FaultFree(starts[1], starts[1] + 2);
    LinkedToWithout(old(db.links), id);
    RunIsRecursion(trace, MAX_RETRIES, (k: nat) => if k < |trace| then trace[k] else r);
  }

  /** An update that names no column and no technology list, whose first
      request fails, is retried and returns the row unchanged. */
  method EmptyUpdateRecoversFromOneFault(db: Store, id: Id) returns (r: Outcome<Project>)
    requires db.Valid() && id in db.projects && db.fault(db.requests).Some? && db.Reliable(db.requests + 1)
    modifies db`projects, db`links, db`requests
    ensures r == Returned(Project(id, old(db.projects)[id]))
    ensures db.projects == old(db.projects) && db.links == old(db.links)
  {
    ghost var trace, starts;
    r, trace, starts := Queries.UpdateProject(db, id, NoChanges, None, MAX_RETRIES);
    assert !Queries.UpdateResolves(db, starts[0], true, None);
    assert |trace| > 1 && Queries.UpdateResolves(db, starts[1], true, None);
    EmptyPatchKeepsRow(old(db.projects)[id]);
    assert db.projects == old(db.projects)[id := old(db.projects)[id]];
  }

  /** A createProject without technologies whose first request fails is
      retried, and the retry inserts the project. */
  method CreateRecoversFromOneFault(db: Store, fields: ProjectFields) returns (r: Outcome<Project>)
    requires db.Valid() && db.fault(db.requests).Some? && db.Reliable(db.requests + 1)
    modifies db`projects, db`links, db`nextId, db`requests
    ensures r.Returned? && r.value.fields == fields && r.value.id !in old(db.projects)
  {
    ghost var trace, orphans, starts;
    r, trace, orphans, starts := Queries.CreateProject(db, fields, [], MAX_RETRIES);
    assert !Queries.CreateResolves(db, starts[0], []);
    assert |trace| > 1 && Queries.CreateResolves(db, starts[1], []);
  }

  /** An update with an unknown technology on a store that does not fail:
      every attempt patches the row, deletes the project's links and then
      fails to insert the new ones, so the call throws after all four
      attempts with the row patched and the project linked to nothing. */
  method UpdateWithUnknownTechnology(db: Store, id: Id, patch: ProjectPatch, techIds: seq<Id>)
    returns (r: Outcome<Project>, ghost trace: seq<Outcome<Project>>)
    requires db.Valid() && db.Reliable(db.requests) && id in db.projects
    requires |techIds| > 0 && !KnownTechnologies(db.technologies, techIds)
    modifies db`projects, db`links, db`requests
    ensures db.Valid()
    ensures r.Threw? && |trace| == MAX_RETRIES + 1
    ensures db.projects == old(db.projects)[id := Patched(old(db.projects)[id], patch)]
    ensures LinkedTo(db.links, id) == {} && Without(db.links, id) == Without(old(db.links), id)
  {
    ghost var starts;
    r, trace, starts := Queries.UpdateProject(db, id, patch, Some(techIds), MAX_RETRIES);
    assert !Queries.UpdateResolves(db, starts[|trace| - 1], true, Some(techIds));
    assert Queries.UpdateDeleted(db, starts[0], true);
    assert Queries.AnyUpdateDeleted(db, starts, true) && Queries.AnyUpdatePatched(db, starts, true);
    LinkedToWithout(old(db.links), id);
  }

  /** A createProject whose every request fails from its first on: no
      insert gets through, so no attempt leaves a row behind and the call
      throws with both tables as they were. */
  method CreateWhenInsertsFail(db: Store, fields: ProjectFields, techIds: seq<Id>)
    returns (r: Outcome<Project>, ghost orphans: set<Id>)
    requires db.Valid() && forall n :: n >= db.requests ==> db.fault(n).Some?
    modifies db`projects, db`links, db`nextId, db`requests
    ensures db.Valid()
    ensures r.Threw? && orphans == {}
    ensures db.projects == old(db.projects) && db.links == old(db.links)
  {
    ghost var t := TablesOf(db);
    ghost var trace, starts;
    r, trace, orphans, starts := Queries.CreateProject(db, fields, techIds, MAX_RETRIES);
    ConsecutiveWithin(starts, t.requests, db.requests);
    Queries.NoInsertNoWrite(db, t, TablesOf(db), fields, techIds, KnownTechnologies(db.technologies, techIds),
                            MAX_RETRIES, r, trace, orphans, starts);
  }

  /** A delete whose second request, the project delete, fails once: the
      first attempt removes the links and throws, and the retry, which
      begins two requests later, removes the project. */
  method DeleteRecoversFromProjectDeleteFault(db: Store, id: Id) returns (r: Outcome<bool>, ghost trace: seq<Outcome<bool>>)
    requires db.Valid() && db.fault(db.requests).None? && db.fault(db.requests + 1).Some? && db.Reliable(db.requests + 2)
    modifies db`projects, db`links, db`requests
    ensures r == Returned(true) && |trace| == 2
    ensures db.projects == old(db.projects) - {id} && LinkedTo(db.links, id) == {}
    ensures db.requests == old(db.requests) + 4
  {
    ghost var starts;
    r, trace, starts := Queries.DeleteProject(db, id, MAX_RETRIES);
    assert !db.FaultFree(starts[0], starts[0] + 2);
    assert |trace| > 1 && starts[1] == AttemptEnd(starts, 0, db.requests) == old(db.requests) + 2;
    assert db.FaultFree(starts[1], starts[1] + 2);
    assert AttemptEnd(starts, 1, db.requests) == db.requests;
    LinkedToWithout(old(db.links), id);
  }

  /** An update with a technology list whose link delete fails once: the
      first attempt patches the row and throws, and the retry, which begins
      two requests later, patches it again and relinks the project. */
  method UpdateRecoversFromLinkDeleteFault(db: Store, id: Id, patch: ProjectPatch, techIds: seq<Id>)
    returns (r: Outcome<Project>, ghost trace: seq<Outcome<Project>>)
    requires db.Valid() && id in db.projects && KnownTechnologies(db.technologies, techIds)
    requires db.fault(db.requests).None? && db.fault(db.requests + 1).Some? && db.Reliable(db.requests + 2)
    modifies db`projects, db`links, db`requests
    ensures r == Returned(Project(id, Patched(old(db.projects)[id], patch))) && |trace| == 2
    ensures LinkedTo(db.links, id) == set t | t in techIds
  {
    ghost var starts;
    r, trace, starts := Queries.UpdateProject(db, id, patch, Some(techIds), MAX_RETRIES);
    assert !Queries.UpdateResolves(db, starts[0], true, Some(techIds));
    assert |trace| > 1 && starts[1] == AttemptEnd(starts, 0, db.requests) == old(db.requests) + 2;
    assert Queries.UpdateResolves(db, starts[1], true, Some(techIds));
    LinkedToLinksOf(old(db.links), id, techIds);
  }

  /** A createProject whose first link insert and rollback both fail: the
      first attempt leaves its row behind and throws, and the retry, which
      begins three requests later, creates the project; at most that one
      row is orphaned. */
  method CreateAfterOrphan(db: Store, fields: ProjectFields, techIds: seq<Id>)
    returns (r: Outcome<Project>, ghost trace: seq<Outcome<Project>>, ghost orphans: set<Id>)
    requires db.Valid() && |techIds| > 0 && KnownTechnologies(db.technologies, techIds)
    requires db.fault(db.requests).None? && db.fault(db.requests + 1).Some? && db.fault(db.requests + 2).Some?
    requires db.Reliable(db.requests + 3)
    modifies db`projects, db`links, db`nextId, db`requests
    ensures r.Returned? && r.value.fields == fields && |trace| == 2 && |orphans| <= 1
    ensures db.links == old(db.links) + LinksOf(r.value.id, techIds)
    ensures db.requests == old(db.requests) + 5
  {
    ghost var starts;
    r, trace, orphans, starts := Queries.CreateProject(db, fields, techIds, MAX_RETRIES);
    assert !Queries.CreateResolves(db, starts[0], techIds);
    assert |trace| > 1 && starts[1] == AttemptEnd(starts, 0, db.requests) == old(db.requests) + 3;
    assert Queries.CreateResolves(db, starts[1], techIds);
    assert AttemptEnd(starts, 1, db.requests) == db.requests;
  }
}
