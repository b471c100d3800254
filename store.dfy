/** The remote relational store as the data-access layer sees it: a handle
    holding the tables, and a failure oracle that each request consults.

    Request number k (counting every request ever issued on the handle) fails
    with `fault(k)` when that is `Some`; otherwise it behaves as the table
    semantics below say. The oracle stands for the network and the database
    engine, whose failures the code cannot predict. */
module Database {
  import opened Rows

  /** The structured error descriptor the client returns. */
  datatype StoreError = StoreError(code: string, message: string)

  /** `.single()` found no row (the code the data-access layer tests for). */
  const NO_ROWS := "PGRST116"
  const NO_ROWS_MESSAGE := "JSON object requested, multiple (or no) rows returned"
  /** A foreign-key constraint rejected the write. */
  const FOREIGN_KEY_VIOLATION := "23503"
  const FOREIGN_KEY_MESSAGE := "violates foreign key constraint"

  /** The `{ data, error }` pair a request settles with. */
  datatype Response<T> = Ok(data: T) | Err(error: StoreError)

  /** The join rows that link `project` to each of `techIds`. */
  function LinksOf(project: Id, techIds: seq<Id>): (s: set<Link>)
    ensures forall l :: l in s <==> l.project == project && l.technology in techIds
  {
    set t | t in techIds :: Link(project, t)
  }

  /** The technology ids that `links` attach to `project`. */
  function LinkedTo(links: set<Link>, project: Id): set<Id>
  {
    set l | l in links && l.project == project :: l.technology
  }

  /** The join rows of every project other than `project`. */
  function Without(links: set<Link>, project: Id): set<Link>
  {
    set l | l in links && l.project != project
  }

  /** Replacing a project's join rows by those of `techIds` links it to
      exactly the technologies listed (duplicates collapse). */
  lemma LinkedToLinksOf(links: set<Link>, project: Id, techIds: seq<Id>)
    ensures LinkedTo(Without(links, project) + LinksOf(project, techIds), project) == set t | t in techIds
  {
    var s := Without(links, project) + LinksOf(project, techIds);
    forall t | t in techIds ensures t in LinkedTo(s, project) {
      assert Link(project, t) in s;
    }
  }

  /** After its join rows are deleted a project is linked to nothing, and
      every other project keeps exactly the technologies it had. */
  lemma LinkedToWithout(links: set<Link>, project: Id)
    ensures LinkedTo(Without(links, project), project) == {}
    ensures forall p :: p != project ==> LinkedTo(Without(links, project), p) == LinkedTo(links, p)
  {
    forall p | p != project ensures LinkedTo(Without(links, project), p) == LinkedTo(links, p) {
      forall t | t in LinkedTo(links, p) ensures t in LinkedTo(Without(links, project), p) {
        var l :| l in links && l.project == p && l.technology == t;
        assert l in Without(links, project);
      }
    }
  }

  /** `reviews` after setting the status of row `id`; an update that matches
      no row changes nothing. */
  function ReviewWritten(reviews: map<Id, Review>, id: Id, status: ReviewStatus): map<Id, Review>
  {
    if id in reviews then reviews[id := reviews[id].(status := status)] else reviews
  }

  /** `feedback` after one update of row `id` that sets its status and, when
      given, its reply message; an update that matches no row changes nothing. */
  function FeedbackWritten(feedback: map<Id, Feedback>, id: Id, status: FeedbackStatus, reply: Option<string>): map<Id, Feedback>
  {
    if id in feedback
    then feedback[id := feedback[id].(status := status, replyMessage := if reply.Some? then reply else feedback[id].replyMessage)]
    else feedback
  }

  class Store {
    var projects: map<Id, ProjectFields>
    var links: set<Link>
    /** The technologies known to the store; no operation of the model writes them. */
    const technologies: map<Id, Technology>
    var connections: map<Id, Connection>
    var reviews: map<Id, Review>
    var feedback: map<Id, Feedback>
    var stats: map<string, int>
    var profiles: seq<Profile>
    /** The id the store gives the next inserted row. */
    var nextId: nat
    /** How many requests have been issued on this handle. */
    var requests: nat
    /** The failure oracle. */
    const fault: nat -> Option<StoreError>

    /** Ids are fresh, and every join row refers to an existing project and an
        existing technology (no orphan join rows). */
    ghost predicate Valid()
      reads this
    {
      (forall id :: id in projects ==> id < nextId) &&
      (forall id :: id in connections ==> id < nextId) &&
      (forall l :: l in links ==> l.project in projects && l.technology in technologies)
    }

    /** The failure the next request meets, if any. */
    function Pending(): Option<StoreError>
      reads this
    {
      fault(requests)
    }

    /** None of the requests numbered `from` up to, but not including,
        `upto` fails. */
    predicate FaultFree(from: nat, upto: nat)
    {
      forall k :: from <= k < upto ==> fault(k).None?
    }

    /** No request from number `from` on fails. */
    ghost predicate Reliable(from: nat)
    {
      forall k :: from <= k ==> fault(k).None?
    }

    /** A handle on an empty database that knows the given technologies. */
    constructor (fault: nat -> Option<StoreError>, technologies: map<Id, Technology>)
      ensures Valid()
      ensures this.fault == fault && this.technologies == technologies
      ensures projects == map[] && links == {} && connections == map[] && reviews == map[]
      ensures feedback == map[] && stats == map[] && profiles == []
      ensures nextId == 0 && requests == 0
    {
      this.fault := fault;
      this.technologies := technologies;
      projects, links, connections, reviews, feedback, stats, profiles := map[], {}, map[], map[], map[], map[], [];
      nextId, requests := 0, 0;
    }

    /** `insert([fields]).select().single()` on `projects`. */
    method InsertProject(fields: ProjectFields) returns (res: Response<Project>)
      requires Valid()
      modifies this`projects, this`nextId, this`requests
      ensures Valid() && requests == old(requests) + 1
      ensures old(Pending()).Some? ==>
        res == Err(old(Pending()).value) && projects == old(projects) && nextId == old(nextId)
      ensures old(Pending()).None? ==>
        res == Ok(Project(old(nextId), fields)) &&
        projects == old(projects)[old(nextId) := fields] && nextId == old(nextId) + 1
    {
      var e := fault(requests);
      requests := requests + 1;
      if e.Some? {
        res := Err(e.value);
      } else {
        res := Ok(Project(nextId, fields));
        projects := projects[nextId := fields];
        nextId := nextId + 1;
      }
    }

    /** `update(patch).eq("id", id).select().single()` on `projects`. */
    method UpdateProject(id: Id, patch: ProjectPatch) returns (res: Response<Project>)
      requires Valid()
      modifies this`projects, this`requests
      ensures Valid() && requests == old(requests) + 1
      ensures old(Pending()).Some? ==> res == Err(old(Pending()).value) && projects == old(projects)
      ensures old(Pending()).None? && id !in old(projects) ==>
        res == Err(StoreError(NO_ROWS, NO_ROWS_MESSAGE)) && projects == old(projects)
      ensures old(Pending()).None? && id in old(projects) ==>
        res == Ok(Project(id, Patched(old(projects)[id], patch))) &&
        projects == old(projects)[id := Patched(old(projects)[id], patch)]
    {
      var e := fault(requests);
      requests := requests + 1;
      if e.Some? {
        res := Err(e.value);
      } else if id !in projects {
        res := Err(StoreError(NO_ROWS, NO_ROWS_MESSAGE));
      } else {
        var row := Patched(projects[id], patch);
        projects := projects[id := row];
        res := Ok(Project(id, row));
      }
    }

    /** `select("*").eq("id", id).single()` on `projects`. */
    method SelectProject(id: Id) returns (res: Response<Project>)
      modifies this`requests
      ensures requests == old(requests) + 1
      ensures old(Pending()).Some? ==> res == Err(old(Pending()).value)
      ensures old(Pending()).None? && id !in projects ==> res == Err(StoreError(NO_ROWS, NO_ROWS_MESSAGE))
      ensures old(Pending()).None? && id in projects ==> res == Ok(Project(id, projects[id]))
    {
      var e := fault(requests);
      requests := requests + 1;
      if e.Some? {
        res := Err(e.value);
      } else if id !in projects {
        res := Err(StoreError(NO_ROWS, NO_ROWS_MESSAGE));
      } else {
        res := Ok(Project(id, projects[id]));
      }
    }

    /** The technologies linked to `id`, as an embedded select returns them. */
    ghost function TechnologiesOf(id: Id): set<Technology>
      reads this
    {
      set l | l in links && l.project == id && l.technology in technologies :: technologies[l.technology]
    }

    /** `select("*, technologies(...)").eq("id", id).single()` on `projects`. */
    method SelectProjectWithTechnologies(id: Id) returns (res: Response<ProjectWithTechnologies>)
      modifies this`requests
      ensures requests == old(requests) + 1
      ensures old(Pending()).Some? ==> res == Err(old(Pending()).value)
      ensures old(Pending()).None? && id !in projects ==> res == Err(StoreError(NO_ROWS, NO_ROWS_MESSAGE))
      ensures old(Pending()).None? && id in projects ==>
        res == Ok(ProjectWithTechnologies(Project(id, projects[id]), TechnologiesOf(id)))
    {
      var e := fault(requests);
      requests := requests + 1;
      if e.Some? {
        res := Err(e.value);
      } else if id !in projects {
        res := Err(StoreError(NO_ROWS, NO_ROWS_MESSAGE));
      } else {
        var techs := set l | l in links && l.project == id && l.technology in technologies :: technologies[l.technology];
        res := Ok(ProjectWithTechnologies(Project(id, projects[id]), techs));
      }
    }

    /** `delete().eq("id", id)` on `projects`. Removing no row is not an
        error; removing a row that join rows still refer to is. */
    method DeleteProject(id: Id) returns (err: Option<StoreError>)
      requires Valid()
      modifies this`projects, this`requests
      ensures Valid() && requests == old(requests) + 1
      ensures old(Pending()).Some? ==> err == old(Pending()) && projects == old(projects)
      ensures old(Pending()).None? && LinkedTo(links, id) != {} ==>
        err == Some(StoreError(FOREIGN_KEY_VIOLATION, FOREIGN_KEY_MESSAGE)) && projects == old(projects)
      ensures old(Pending()).None? && LinkedTo(links, id) == {} ==>
        err == None && projects == old(projects) - {id}
    {
      var e := fault(requests);
      requests := requests + 1;
      if e.Some? {
        err := e;
      } else if LinkedTo(links, id) != {} {
        err := Some(StoreError(FOREIGN_KEY_VIOLATION, FOREIGN_KEY_MESSAGE));
      } else {
        err := None;
        projects := projects - {id};
        assert forall l :: l in links && l.project == id ==> l.technology in LinkedTo(links, id);
      }
    }

    /** `delete().eq("project_id", project)` on `project_technologies`. */
    method DeleteLinks(project: Id) returns (err: Option<StoreError>)
      requires Valid()
      modifies this`links, this`requests
      ensures Valid() && requests == old(requests) + 1
      ensures old(Pending()).Some? ==> err == old(Pending()) && links == old(links)
      ensures old(Pending()).None? ==> err == None && links == Without(old(links), project)
    {
      var e := fault(requests);
      requests := requests + 1;
      err := e;
      if e.None? {
        links := Without(links, project);
      }
    }

    /** One `insert` of a join row per id of `techIds` on `project_technologies`,
        as a single request that writes all rows or none. */
    method InsertLinks(project: Id, techIds: seq<Id>) returns (err: Option<StoreError>)
      requires Valid()
      modifies this`links, this`requests
      ensures Valid() && requests == old(requests) + 1
      ensures old(Pending()).Some? ==> err == old(Pending()) && links == old(links)
      ensures old(Pending()).None? && !(project in projects && forall t :: t in techIds ==> t in technologies) ==>
        err == Some(StoreError(FOREIGN_KEY_VIOLATION, FOREIGN_KEY_MESSAGE)) && links == old(links)
      ensures old(Pending()).None? && project in projects && (forall t :: t in techIds ==> t in technologies) ==>
        err == None && links == old(links) + LinksOf(project, techIds)
    {
      var e := fault(requests);
      requests := requests + 1;
      if e.Some? {
        err := e;
      } else if !(project in projects && forall t :: t in techIds ==> t in technologies) {
        err := Some(StoreError(FOREIGN_KEY_VIOLATION, FOREIGN_KEY_MESSAGE));
      } else {
        err := None;
        links := links + LinksOf(project, techIds);
      }
    }

    /** `select("*").single()` on `profiles`: exactly one row, or no-rows. */
    method SelectProfile() returns (res: Response<Profile>)
      modifies this`requests
      ensures requests == old(requests) + 1
      ensures old(Pending()).Some? ==> res == Err(old(Pending()).value)
      ensures old(Pending()).None? && |profiles| != 1 ==> res == Err(StoreError(NO_ROWS, NO_ROWS_MESSAGE))
      ensures old(Pending()).None? && |profiles| == 1 ==> res == Ok(profiles[0])
    {
      var e := fault(requests);
      requests := requests + 1;
      if e.Some? {
        res := Err(e.value);
      } else if |profiles| != 1 {
        res := Err(StoreError(NO_ROWS, NO_ROWS_MESSAGE));
      } else {
        res := Ok(profiles[0]);
      }
    }

    /** `insert([row])` on `connections`. */
    method InsertConnection(row: Connection) returns (err: Option<StoreError>)
      requires Valid()
      modifies this`connections, this`nextId, this`requests
      ensures Valid() && requests == old(requests) + 1
      ensures old(Pending()).Some? ==> err == old(Pending()) && connections == old(connections) && nextId == old(nextId)
      ensures old(Pending()).None? ==>
        err == None && connections == old(connections)[old(nextId) := row] && nextId == old(nextId) + 1
    {
      var e := fault(requests);
      requests := requests + 1;
      err := e;
      if e.None? {
        connections := connections[nextId := row];
        nextId := nextId + 1;
      }
    }

    /** The `increment_stat` procedure: add `delta` to the named counter, which
        starts at 0 when it does not exist yet. */
    method IncrementStat(name: string, delta: int) returns (err: Option<StoreError>)
      modifies this`stats, this`requests
      ensures requests == old(requests) + 1
      ensures old(Pending()).Some? ==> err == old(Pending()) && stats == old(stats)
      ensures old(Pending()).None? ==>
        err == None && stats == old(stats)[name := (if name in old(stats) then old(stats)[name] else 0) + delta]
    {
      var e := fault(requests);
      requests := requests + 1;
      err := e;
      if e.None? {
        stats := stats[name := (if name in stats then stats[name] else 0) + delta];
      }
    }

    /** `update({ status }).eq("id", id)` on `reviews`; no matching row is
        not an error. */
    method UpdateReviewStatus(id: Id, status: ReviewStatus) returns (err: Option<StoreError>)
      modifies this`reviews, this`requests
      ensures requests == old(requests) + 1
      ensures old(Pending()).Some? ==> err == old(Pending()) && reviews == old(reviews)
      ensures old(Pending()).None? ==> err == None && reviews == ReviewWritten(old(reviews), id, status)
    {
      var e := fault(requests);
      requests := requests + 1;
      err := e;
      if e.None? {
        reviews := ReviewWritten(reviews, id, status);
      }
    }

    /** One `update` of `feedback` row `id`: the status, and the reply message
        when one is given, in the same request. */
    method UpdateFeedback(id: Id, status: FeedbackStatus, reply: Option<string>) returns (err: Option<StoreError>)
      modifies this`feedback, this`requests
      ensures requests == old(requests) + 1
      ensures old(Pending()).Some? ==> err == old(Pending()) && feedback == old(feedback)
      ensures old(Pending()).None? ==> err == None && feedback == FeedbackWritten(old(feedback), id, status, reply)
    {
      var e := fault(requests);
      requests := requests + 1;
      err := e;
      if e.None? {
        feedback := FeedbackWritten(feedback, id, status, reply);
      }
    }

    /** `delete().eq("id", id)` on `feedback`. */
    method DeleteFeedback(id: Id) returns (err: Option<StoreError>)
      modifies this`feedback, this`requests
      ensures requests == old(requests) + 1
      ensures old(Pending()).Some? ==> err == old(Pending()) && feedback == old(feedback)
      ensures old(Pending()).None? ==> err == None && feedback == old(feedback) - {id}
    {
      var e := fault(requests);
      requests := requests + 1;
      err := e;
      if e.None? {
        feedback := feedback - {id};
      }
    }
  }

  /** The request failed with something other than "no rows". */
  predicate Raises(e: Option<StoreError>)
  {
    e.Some? && e.value.code != NO_ROWS
  }

  /** Every id in `techIds` names an existing technology. */
  predicate KnownTechnologies(technologies: map<Id, Technology>, techIds: seq<Id>)
  {
    forall t :: t in techIds ==> t in technologies
  }

  /** The project tables of a store and its request count, at one moment. */
  datatype Tables = Tables(projects: map<Id, ProjectFields>, links: set<Link>, nextId: nat, requests: nat)

  ghost function TablesOf(db: Store): Tables
    reads db
  {
    Tables(db.projects, db.links, db.nextId, db.requests)
  }

  /** The request number at which attempt k of a retried call, whose
      attempts began at the request numbers `starts`, ended: where the next
      attempt began, or, for the last one, `upto`, where the call ended. */
  function AttemptEnd(starts: seq<nat>, k: nat, upto: nat): nat
    requires k < |starts|
  {
    if k + 1 < |starts| then starts[k + 1] else upto
  }

  /** The attempts of one retried call began at `starts`: the first one at
      `from`, and each one made at least one request before the next began. */
  predicate Consecutive(starts: seq<nat>, from: nat, upto: nat)
  {
    |starts| > 0 && starts[0] == from &&
    forall k :: 0 <= k < |starts| ==> starts[k] < AttemptEnd(starts, k, upto)
  }

  /** Attempt k of a call began at least k requests after the call did. */
  lemma {:induction false} ConsecutiveFrom(starts: seq<nat>, from: nat, upto: nat, k: nat)
    requires Consecutive(starts, from, upto) && k < |starts|
    ensures from + k <= starts[k]
    decreases k
  {
    if k > 0 {
      ConsecutiveFrom(starts, from, upto, k - 1);
      assert starts[k - 1] < AttemptEnd(starts, k - 1, upto) == starts[k];
    }
  }

  /** Attempt k of a call began before the call ended. */
  lemma {:induction false} ConsecutiveBelow(starts: seq<nat>, from: nat, upto: nat, k: nat)
    requires Consecutive(starts, from, upto) && k < |starts|
    ensures starts[k] < upto
    decreases |starts| - k
  {
    assert starts[k] < AttemptEnd(starts, k, upto);
    if k + 1 < |starts| {
      ConsecutiveBelow(starts, from, upto, k + 1);
    }
  }

  /** Every attempt of a call began at or after the call's first request and
      before its end. */
  lemma ConsecutiveWithin(starts: seq<nat>, from: nat, upto: nat)
    requires Consecutive(starts, from, upto)
    ensures forall k :: 0 <= k < |starts| ==> from <= starts[k] < upto
  {
    forall k | 0 <= k < |starts| ensures from <= starts[k] < upto {
      ConsecutiveFrom(starts, from, upto, k);
      ConsecutiveBelow(starts, from, upto, k);
    }
  }

  /** An attempt that began at `s` followed by the attempts of the rest of
      the call: the first attempt ends where the rest begins, and every other
      attempt ends where it did. */
  lemma AttemptEndCons(s: nat, rest: seq<nat>, upto: nat)
    requires rest != []
    ensures AttemptEnd([s] + rest, 0, upto) == rest[0]
    ensures forall k :: 0 < k <= |rest| ==> AttemptEnd([s] + rest, k, upto) == AttemptEnd(rest, k - 1, upto)
  {
    forall k | 0 < k <= |rest| ensures AttemptEnd([s] + rest, k, upto) == AttemptEnd(rest, k - 1, upto) {
      if k < |rest| {
        assert ([s] + rest)[k + 1] == rest[k];
      }
    }
  }
}
