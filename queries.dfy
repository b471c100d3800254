/** The public data-access file: reads with not-found handling, the project
    and technology relationship manager that throws on failure and rolls
    back a half-created project, the grouping reducers, the contact form and
    the status writes. Every operation is wrapped in withRetry. */
module Queries {
  import opened Rows
  import opened Database
  import opened Retry
  import opened Grouping

  // ---------------------------------------------------------------------
  // Grouping and aggregation of fetched rows
  // ---------------------------------------------------------------------

  datatype FunFactsByCategory = FunFactsByCategory(category: string, categoryIconName: string, items: seq<FunFact>)

  datatype TechnologiesByCategory = TechnologiesByCategory(category: string, technologies: seq<Technology>)

  function FactCategory(f: FunFact): string
  {
    f.category
  }

  /** `tech.category || "Other"`: a missing or empty category counts as "Other". */
  function TechCategory(t: Technology): string
  {
    if t.category.None? || t.category.value == "" then "Other" else t.category.value
  }

  /** `groups` is the grouping of `facts`: one group per category in order
      of first appearance, holding that category's facts in input order, with
      the icon name of the category's first fact. */
  ghost predicate FactGroups(groups: seq<FunFactsByCategory>, facts: seq<FunFact>)
  {
    |groups| == |Keys(facts, FactCategory)| &&
    forall i :: 0 <= i < |groups| ==>
      groups[i].category == Keys(facts, FactCategory)[i] &&
      groups[i].items == Members(facts, FactCategory, groups[i].category) &&
      groups[i].items != [] &&
      groups[i].categoryIconName == groups[i].items[0].categoryIconName
  }

  /** A step of the reducer of getFunFactsByCategory keeps the grouping
      when the next fact's category already has group `k`: the fact joins
      that group, and no other group changes. */
  lemma FactGroupsJoin(groups: seq<FunFactsByCategory>, facts: seq<FunFact>, n: nat, k: nat)
    requires n < |facts| && FactGroups(groups, facts[..n])
    requires k < |groups| && groups[k].category == facts[n].category
    ensures FactGroups(groups[k := groups[k].(items := groups[k].items + [facts[n]])], facts[..n + 1])
  {
    var ks := Keys(facts[..n], FactCategory);
    var next := groups[k := groups[k].(items := groups[k].items + [facts[n]])];
    GroupStep(facts, FactCategory, n);
    KeysDistinct(facts[..n], FactCategory);
    forall i | 0 <= i < |next|
      ensures next[i].items == Members(facts[..n + 1], FactCategory, next[i].category)
    {
      if i != k {
        assert ks[i] != ks[k];
      }
    }
  }

  /** A step of the reducer of getFunFactsByCategory keeps the grouping
      when no group has the next fact's category: the fact opens a new last
      group, with its own icon name. */
  lemma FactGroupsOpen(groups: seq<FunFactsByCategory>, facts: seq<FunFact>, n: nat)
    requires n < |facts| && FactGroups(groups, facts[..n])
    requires forall j :: 0 <= j < |groups| ==> groups[j].category != facts[n].category
    ensures FactGroups(groups + [FunFactsByCategory(facts[n].category, facts[n].categoryIconName, [facts[n]])], facts[..n + 1])
  {
    var ks := Keys(facts[..n], FactCategory);
    var newGroup := FunFactsByCategory(facts[n].category, facts[n].categoryIconName, [facts[n]]);
    var next := groups + [newGroup];
    GroupStep(facts, FactCategory, n);
    assert facts[n].category !in ks;
    assert Keys(facts[..n + 1], FactCategory) == ks + [facts[n].category];
    NoKeyNoMembers(facts[..n], FactCategory, facts[n].category);
    forall i | 0 <= i < |next|
      ensures next[i].category == Keys(facts[..n + 1], FactCategory)[i]
      ensures next[i].items == Members(facts[..n + 1], FactCategory, next[i].category)
      ensures next[i].items != [] && next[i].categoryIconName == next[i].items[0].categoryIconName
    {
      if i < |groups| {
        assert next[i] == groups[i];
        assert ks[i] != facts[n].category;
      } else {
        assert next[i] == newGroup;
      }
    }
  }

  /** The reducer of getFunFactsByCategory. */
  method GroupFunFactsByCategory(facts: seq<FunFact>) returns (groups: seq<FunFactsByCategory>)
    ensures |groups| == |Keys(facts, FactCategory)|
    ensures forall i :: 0 <= i < |groups| ==>
      groups[i].category == Keys(facts, FactCategory)[i] &&
      groups[i].items == Members(facts, FactCategory, groups[i].category) &&
      groups[i].items != [] &&
      groups[i].categoryIconName == groups[i].items[0].categoryIconName
  {
    groups := [];
    var n := 0;
    while n < |facts|
      invariant n <= |facts| && FactGroups(groups, facts[..n])
    {
      var fact := facts[n];
      var k := Find(groups, (g: FunFactsByCategory) => g.category, fact.category);
      if k < |groups| {
        FactGroupsJoin(groups, facts, n, k);
        groups := groups[k := groups[k].(items := groups[k].items + [fact])];
      } else {
        FactGroupsOpen(groups, facts, n);
        groups := groups + [FunFactsByCategory(fact.category, fact.categoryIconName, [fact])];
      }
      n := n + 1;
    }
    assert facts[..n] == facts;
  }

  /** The grouping of getFunFactsByCategory is a partition: its categories
      are distinct, and each fact is in the group of its own category and in
      no other. */
  lemma FactInExactlyOneGroup(groups: seq<FunFactsByCategory>, facts: seq<FunFact>, f: FunFact)
    requires FactGroups(groups, facts) && f in facts
    ensures forall i, j :: 0 <= i < j < |groups| ==> groups[i].category != groups[j].category
    ensures exists i :: 0 <= i < |groups| && groups[i].category == f.category
    ensures forall i :: 0 <= i < |groups| ==> (f in groups[i].items <==> groups[i].category == f.category)
  {
    var ks := Keys(facts, FactCategory);
    KeysDistinct(facts, FactCategory);
    KeysCover(facts, FactCategory);
    forall i, j | 0 <= i < j < |groups| ensures groups[i].category != groups[j].category {
      assert ks[i] != ks[j];
    }
    forall i | 0 <= i < |groups| ensures f in groups[i].items <==> groups[i].category == f.category {
      MembersExact(facts, FactCategory, groups[i].category);
    }
    var i :| 0 <= i < |ks| && ks[i] == f.category;
    assert groups[i].category == f.category;
  }

  /** `groups` is the grouping of `techs` by category, "Other" standing for
      a missing or empty one. */
  ghost predicate TechGroups(groups: seq<TechnologiesByCategory>, techs: seq<Technology>)
  {
    |groups| == |Keys(techs, TechCategory)| &&
    forall i :: 0 <= i < |groups| ==>
      groups[i].category == Keys(techs, TechCategory)[i] &&
      groups[i].technologies == Members(techs, TechCategory, groups[i].category) &&
      groups[i].technologies != []
  }

  /** A step of the reducer of getTechnologiesByCategory when the next
      technology's category already has group `k`. */
  lemma TechGroupsJoin(groups: seq<TechnologiesByCategory>, techs: seq<Technology>, n: nat, k: nat)
    requires n < |techs| && TechGroups(groups, techs[..n])
    requires k < |groups| && groups[k].category == TechCategory(techs[n])
    ensures TechGroups(groups[k := groups[k].(technologies := groups[k].technologies + [techs[n]])], techs[..n + 1])
  {
    var ks := Keys(techs[..n], TechCategory);
    var next := groups[k := groups[k].(technologies := groups[k].technologies + [techs[n]])];
    GroupStep(techs, TechCategory, n);
    KeysDistinct(techs[..n], TechCategory);
    forall i | 0 <= i < |next|
      ensures next[i].technologies == Members(techs[..n + 1], TechCategory, next[i].category)
    {
      if i != k {
        assert ks[i] != ks[k];
      }
    }
  }

  /** A step of the reducer of getTechnologiesByCategory when no group has
      the next technology's category. */
  lemma TechGroupsOpen(groups: seq<TechnologiesByCategory>, techs: seq<Technology>, n: nat)
    requires n < |techs| && TechGroups(groups, techs[..n])
    requires forall j :: 0 <= j < |groups| ==> groups[j].category != TechCategory(techs[n])
    ensures TechGroups(groups + [TechnologiesByCategory(TechCategory(techs[n]), [techs[n]])], techs[..n + 1])
  {
    var ks := Keys(techs[..n], TechCategory);
    var category := TechCategory(techs[n]);
    var next := groups + [TechnologiesByCategory(category, [techs[n]])];
    GroupStep(techs, TechCategory, n);
    assert category !in ks;
    NoKeyNoMembers(techs[..n], TechCategory, category);
    forall i | 0 <= i < |next|
      ensures next[i].technologies == Members(techs[..n + 1], TechCategory, next[i].category)
    {
      if i < |groups| {
        assert ks[i] != category;
      }
    }
  }

  /** The reducer of getTechnologiesByCategory. */
  method GroupTechnologiesByCategory(techs: seq<Technology>) returns (groups: seq<TechnologiesByCategory>)
    ensures |groups| == |Keys(techs, TechCategory)|
    ensures forall i :: 0 <= i < |groups| ==>
      groups[i].category == Keys(techs, TechCategory)[i] &&
      groups[i].technologies == Members(techs, TechCategory, groups[i].category) &&
      groups[i].technologies != []
  {
    groups := [];
    var n := 0;
    while n < |techs|
      invariant n <= |techs| && TechGroups(groups, techs[..n])
    {
      var tech := techs[n];
      var category := TechCategory(tech);
      var k := Find(groups, (g: TechnologiesByCategory) => g.category, category);
      if k < |groups| {
        TechGroupsJoin(groups, techs, n, k);
        groups := groups[k := groups[k].(technologies := groups[k].technologies + [tech])];
      } else {
        TechGroupsOpen(groups, techs, n);
        groups := groups + [TechnologiesByCategory(category, [tech])];
      }
      n := n + 1;
    }
    assert techs[..n] == techs;
  }

  /** The grouping of getTechnologiesByCategory is a partition: its
      categories are distinct, and each technology is in the group of its
      own category ("Other" when it has none) and in no other. */
  lemma TechInExactlyOneGroup(groups: seq<TechnologiesByCategory>, techs: seq<Technology>, t: Technology)
    requires TechGroups(groups, techs) && t in techs
    ensures forall i, j :: 0 <= i < j < |groups| ==> groups[i].category != groups[j].category
    ensures exists i :: 0 <= i < |groups| && groups[i].category == TechCategory(t)
    ensures forall i :: 0 <= i < |groups| ==> (t in groups[i].technologies <==> groups[i].category == TechCategory(t))
  {
    var ks := Keys(techs, TechCategory);
    KeysDistinct(techs, TechCategory);
    KeysCover(techs, TechCategory);
    forall i, j | 0 <= i < j < |groups| ensures groups[i].category != groups[j].category {
      assert ks[i] != ks[j];
    }
    forall i | 0 <= i < |groups| ensures t in groups[i].technologies <==> groups[i].category == TechCategory(t) {
      MembersExact(techs, TechCategory, groups[i].category);
    }
    var i :| 0 <= i < |ks| && ks[i] == TechCategory(t);
    assert groups[i].category == TechCategory(t);
  }

  /** A technology whose category is missing or empty is grouped under
      "Other", and under no other category. */
  lemma FalsyCategoryIsOther(techs: seq<Technology>, t: Technology)
    requires t in techs
    requires t.category.None? || t.category == Some("")
    ensures "Other" in Keys(techs, TechCategory)
    ensures t in Members(techs, TechCategory, "Other")
    ensures forall c :: c != "Other" ==> t !in Members(techs, TechCategory, c)
  {
    KeysCover(techs, TechCategory);
    MembersExact(techs, TechCategory, "Other");
    forall c | c != "Other" ensures t !in Members(techs, TechCategory, c) {
      MembersExact(techs, TechCategory, c);
    }
  }

  /** The reducer of getPortfolioStats: a record from metric name to value,
      where a later row of the same name overwrites an earlier one. */
  method CollectPortfolioStats(rows: seq<PortfolioStat>) returns (m: map<string, int>)
    ensures forall name :: name in m <==> exists i :: 0 <= i < |rows| && rows[i].metricName == name
    ensures forall i :: 0 <= i < |rows| && (forall j :: i < j < |rows| ==> rows[j].metricName != rows[i].metricName) ==>
      rows[i].metricName in m && m[rows[i].metricName] == rows[i].metricValue
  {
    m := map[];
    var n := 0;
    while n < |rows|
      invariant n <= |rows|
      invariant forall name :: name in m <==> exists i :: 0 <= i < n && rows[i].metricName == name
      invariant forall i :: 0 <= i < n && (forall j :: i < j < n ==> rows[j].metricName != rows[i].metricName) ==>
        rows[i].metricName in m && m[rows[i].metricName] == rows[i].metricValue
    {
      m := m[rows[n].metricName := rows[n].metricValue];
      n := n + 1;
    }
  }

  // ---------------------------------------------------------------------
  // Single-row reads: a missing row is `null`, not an error
  // ---------------------------------------------------------------------

  /** One invocation of the operation getProjectById wraps. */
  method GetProjectByIdOnce(db: Store, id: Id) returns (r: Outcome<Option<Project>>)
    modifies db`requests
    ensures db.requests == old(db.requests) + 1
    ensures old(db.Pending()).None? ==>
      r == Returned(if id in db.projects then Some(Project(id, db.projects[id])) else None)
    ensures old(db.Pending()).Some? && !Raises(old(db.Pending())) ==> r == Returned(None)
    ensures Raises(old(db.Pending())) ==> r == Threw("Error fetching project by ID: " + old(db.Pending()).value.message)
  {
    var res := db.SelectProject(id);
    if res.Err? {
      if res.error.code == NO_ROWS {
        r := Returned(None);
      } else {
        r := Threw("Error fetching project by ID: " + res.error.message);
      }
    } else {
      r := Returned(Some(res.data));
    }
  }

  /** getProjectById: withRetry around one select, as withRetry's own
      recursion over the `retries` still granted (getProjectById grants
      MAX_RETRIES). Null for a missing row, the row when found; store errors
      other than "no rows" are thrown and therefore retried. */
  method GetProjectById(db: Store, id: Id, retries: nat)
    returns (r: Outcome<Option<Project>>, ghost trace: seq<Outcome<Option<Project>>>)
    modifies db`requests
    ensures IsRun(trace, retries) && r == Last(trace)
    ensures db.requests == old(db.requests) + |trace|
    ensures forall k :: 0 <= k < |trace| ==> (trace[k].Threw? <==> Raises(db.fault(old(db.requests) + k)))
    ensures r.Returned? && r.value.Some? ==> id in db.projects && r.value.value == Project(id, db.projects[id])
    ensures r == Returned(None) && id in db.projects ==>
      db.fault(db.requests - 1).Some? && db.fault(db.requests - 1).value.code == NO_ROWS
    ensures r.Threw? ==> forall k :: old(db.requests) <= k < db.requests ==> Raises(db.fault(k))
    ensures !Raises(db.fault(old(db.requests))) ==> |trace| == 1
    ensures db.FaultFree(old(db.requests), old(db.requests) + 1) ==>
      r == Returned(if id in db.projects then Some(Project(id, db.projects[id])) else None)
    decreases retries
  {
    r := GetProjectByIdOnce(db, id);
    if r.Threw? && retries > 0 {
      ghost var first := r;
      ghost var rest;
      r, rest := GetProjectById(db, id, retries - 1);
      RunCons(first, rest, retries);
      trace := [first] + rest;
      forall k | 0 <= k < |trace| ensures trace[k].Threw? <==> Raises(db.fault(old(db.requests) + k)) {
        if k > 0 {
          assert trace[k] == rest[k - 1];
        }
      }
    } else {
      RunOfOne(r, retries);
      trace := [r];
    }
  }

  /** One invocation of the operation getProfile wraps. */
  method GetProfileOnce(db: Store) returns (r: Outcome<Option<Profile>>)
    modifies db`requests
    ensures db.requests == old(db.requests) + 1
    ensures old(db.Pending()).None? ==> r == Returned(if |db.profiles| == 1 then Some(db.profiles[0]) else None)
    ensures old(db.Pending()).Some? && !Raises(old(db.Pending())) ==> r == Returned(None)
    ensures Raises(old(db.Pending())) ==> r == Threw("Failed to fetch profile: " + old(db.Pending()).value.message)
  {
    var res := db.SelectProfile();
    if res.Err? {
      if res.error.code == NO_ROWS {
        r := Returned(None);
      } else {
        r := Threw("Failed to fetch profile: " + res.error.message);
      }
    } else {
      r := Returned(Some(res.data));
    }
  }

  /** getProfile: the single profile row, or null when there is none, with
      the same retry recursion (getProfile grants MAX_RETRIES). */
  method GetProfile(db: Store, retries: nat) returns (r: Outcome<Option<Profile>>, ghost trace: seq<Outcome<Option<Profile>>>)
    modifies db`requests
    ensures IsRun(trace, retries) && r == Last(trace)
    ensures db.requests == old(db.requests) + |trace|
    ensures forall k :: 0 <= k < |trace| ==> (trace[k].Threw? <==> Raises(db.fault(old(db.requests) + k)))
    ensures r.Returned? && r.value.Some? ==> |db.profiles| == 1 && r.value.value == db.profiles[0]
    ensures r == Returned(None) && |db.profiles| == 1 ==>
      db.fault(db.requests - 1).Some? && db.fault(db.requests - 1).value.code == NO_ROWS
    ensures r.Threw? ==> forall k :: old(db.requests) <= k < db.requests ==> Raises(db.fault(k))
    ensures !Raises(db.fault(old(db.requests))) ==> |trace| == 1
    ensures db.FaultFree(old(db.requests), old(db.requests) + 1) ==>
      r == Returned(if |db.profiles| == 1 then Some(db.profiles[0]) else None)
    decreases retries
  {
    r := GetProfileOnce(db);
    if r.Threw? && retries > 0 {
      ghost var first := r;
      ghost var rest;
      r, rest := GetProfile(db, retries - 1);
      RunCons(first, rest, retries);
      trace := [first] + rest;
      forall k | 0 <= k < |trace| ensures trace[k].Threw? <==> Raises(db.fault(old(db.requests) + k)) {
        if k > 0 {
          assert trace[k] == rest[k - 1];
        }
      }
    } else {
      RunOfOne(r, retries);
      trace := [r];
    }
  }

  // ---------------------------------------------------------------------
  // Projects and their technologies: throw on failure, roll back on create
  // ---------------------------------------------------------------------

  /** `after` is `before` with a row holding `fields` added under each id of
      `added`, none of which `before` had; every other row is kept. */
  ghost predicate Extends(before: map<Id, ProjectFields>, after: map<Id, ProjectFields>, added: set<Id>, fields: ProjectFields)
  {
    before.Keys !! added && after.Keys == before.Keys + added &&
    (forall id :: id in before ==> after[id] == before[id]) &&
    (forall id :: id in added ==> after[id] == fields)
  }

  /** Two rounds of growth add up to one. */
  lemma ExtendsTwice(a: map<Id, ProjectFields>, b: map<Id, ProjectFields>, c: map<Id, ProjectFields>,
                     s: set<Id>, t: set<Id>, u: set<Id>, fields: ProjectFields)
    requires Extends(a, b, s, fields) && Extends(b, c, t + u, fields)
    ensures Extends(a, c, (s + t) + u, fields)
  {
  }

  /** The ids in an optional id. */
  function IdsOf(o: Option<Id>): set<Id>
  {
    if o.Some? then {o.value} else {}
  }

  /** The id of the project a resolved createProject returns. */
  function CreatedIds(r: Outcome<Project>): set<Id>
  {
    if r.Returned? then {r.value.id} else {}
  }

  /** What one attempt of createProject does, from tables `t` to tables `u`:
      up to three requests; the new project row is kept when the attempt
      resolves, and also when it threw after its compensating delete failed
      (then the row is `orphan`); the links grow by the new project's links
      exactly when it resolves; and when no request failed, nothing is
      orphaned and the attempt resolves exactly when every technology id is
      `known`. */
  ghost predicate Attempted(db: Store, t: Tables, u: Tables, fields: ProjectFields, techIds: seq<Id>, known: bool,
                            r: Outcome<Project>, orphan: Option<Id>)
  {
    t.requests < u.requests <= t.requests + 3 &&
    t.nextId <= u.nextId &&
    Extends(t.projects, u.projects, IdsOf(orphan) + CreatedIds(r), fields) &&
    (forall id :: id in IdsOf(orphan) + CreatedIds(r) ==> t.nextId <= id < u.nextId) &&
    (r.Returned? ==> orphan == None && r.value.fields == fields && u.links == t.links + LinksOf(r.value.id, techIds)) &&
    (r.Threw? ==> u.links == t.links) &&
    (db.FaultFree(t.requests, u.requests) ==> orphan == None && (r.Returned? <==> known))
  }

  /** What a complete createProject with `retries` retries granted does, from
      tables `t` to tables `u`, having recorded `trace` and left the rows
      `orphans` behind: a complete withRetry run (`RetriedRun`) that changed
      the tables as `RetriedWrites` says and ends as `RetriedOutcome` says. */
  ghost predicate Retried(db: Store, t: Tables, u: Tables, fields: ProjectFields, techIds: seq<Id>, known: bool,
                          retries: nat, r: Outcome<Project>, trace: seq<Outcome<Project>>, orphans: set<Id>)
  {
    RetriedRun(t, u, retries, r, trace) &&
    RetriedWrites(t, u, fields, techIds, r, orphans) &&
    RetriedOutcome(db, t, u, known, r, trace, orphans)
  }

  /** A complete withRetry run of at most three requests per attempt. */
  ghost predicate RetriedRun(t: Tables, u: Tables, retries: nat, r: Outcome<Project>, trace: seq<Outcome<Project>>)
  {
    IsRun(trace, retries) && r == Last(trace) &&
    t.requests < u.requests <= t.requests + 3 * |trace| &&
    t.nextId <= u.nextId
  }

  /** The links grow by the new project's links when the call resolves and
      are unchanged when it throws; the project rows grow by the orphans and,
      when it resolves, by the returned project, all with fresh ids and the
      given columns. */
  ghost predicate RetriedWrites(t: Tables, u: Tables, fields: ProjectFields, techIds: seq<Id>, r: Outcome<Project>, orphans: set<Id>)
  {
    (r.Returned? ==> u.links == t.links + LinksOf(r.value.id, techIds)) &&
    (r.Threw? ==> u.links == t.links) &&
    Extends(t.projects, u.projects, orphans + CreatedIds(r), fields) &&
    (forall id :: id in orphans + CreatedIds(r) ==> t.nextId <= id < u.nextId) &&
    (r.Returned? ==> r.value.id !in orphans && r.value.fields == fields)
  }

  /** At most one orphan per failed attempt; and when no request failed,
      nothing is orphaned and a single attempt resolves exactly when every
      technology id is `known`. */
  ghost predicate RetriedOutcome(db: Store, t: Tables, u: Tables, known: bool,
                                 r: Outcome<Project>, trace: seq<Outcome<Project>>, orphans: set<Id>)
  {
    |orphans| <= |trace| - (if r.Returned? then 1 else 0) &&
    (db.FaultFree(t.requests, u.requests) ==>
       orphans == {} && (r.Returned? <==> known) && (r.Returned? ==> |trace| == 1))
  }

  /** withRetry settles on the first attempt when it resolves or no retry is
      left. */
  lemma RetriedOnce(db: Store, t: Tables, u: Tables, fields: ProjectFields, techIds: seq<Id>, known: bool,
                    retries: nat, r: Outcome<Project>, orphan: Option<Id>)
    requires Attempted(db, t, u, fields, techIds, known, r, orphan)
    requires r.Returned? || retries == 0
    ensures Retried(db, t, u, fields, techIds, known, retries, r, [r], IdsOf(orphan))
  {
    RunOfOne(r, retries);
  }

  /** A failed attempt followed by a complete createProject with one retry
      fewer is a complete createProject. */
  lemma RetriedAgain(db: Store, t: Tables, m: Tables, u: Tables, fields: ProjectFields, techIds: seq<Id>, known: bool,
                     retries: nat, first: Outcome<Project>, orphan: Option<Id>,
                     r: Outcome<Project>, rest: seq<Outcome<Project>>, later: set<Id>)
    requires Attempted(db, t, m, fields, techIds, known, first, orphan)
    requires first.Threw? && retries > 0
    requires Retried(db, m, u, fields, techIds, known, retries - 1, r, rest, later)
    ensures Retried(db, t, u, fields, techIds, known, retries, r, [first] + rest, IdsOf(orphan) + later)
  {
    RunCons(first, rest, retries);
    WritesAgain(t, m, u, fields, techIds, first, orphan, r, later);
    OutcomeAgain(db, t, m, u, known, first, orphan, r, rest, later);
  }

  /** The writes of a failed attempt (at most an orphan row, no links)
      followed by those of a complete call with one retry fewer are the
      writes of a complete call. */
  lemma WritesAgain(t: Tables, m: Tables, u: Tables, fields: ProjectFields, techIds: seq<Id>,
                    first: Outcome<Project>, orphan: Option<Id>, r: Outcome<Project>, later: set<Id>)
    requires first.Threw? && m.links == t.links && t.nextId <= m.nextId
    requires Extends(t.projects, m.projects, IdsOf(orphan) + CreatedIds(first), fields)
    requires forall id :: id in IdsOf(orphan) + CreatedIds(first) ==> t.nextId <= id < m.nextId
    requires m.nextId <= u.nextId
    requires RetriedWrites(m, u, fields, techIds, r, later)
    ensures RetriedWrites(t, u, fields, techIds, r, IdsOf(orphan) + later)
  {
    assert CreatedIds(first) == {};
    ExtendsTwice(t.projects, m.projects, u.projects, IdsOf(orphan), later, CreatedIds(r), fields);
    forall id | id in IdsOf(orphan) + later + CreatedIds(r) ensures t.nextId <= id < u.nextId {
      if id in IdsOf(orphan) {
        assert id in IdsOf(orphan) + CreatedIds(first);
      }
    }
    if r.Returned? {
      assert r.value.id in CreatedIds(r);
      assert r.value.id !in IdsOf(orphan);
    }
  }

  /** A failed attempt adds at most one orphan and one trace entry; and a
      fault-free failed attempt is one that no retry can turn into success,
      so a fault-free whole call still resolves exactly when the ids are
      known. */
  lemma OutcomeAgain(db: Store, t: Tables, m: Tables, u: Tables, known: bool,
                     first: Outcome<Project>, orphan: Option<Id>,
                     r: Outcome<Project>, rest: seq<Outcome<Project>>, later: set<Id>)
    requires first.Threw? && t.requests < m.requests < u.requests
    requires db.FaultFree(t.requests, m.requests) ==> orphan == None && !known
    requires RetriedOutcome(db, m, u, known, r, rest, later)
    ensures RetriedOutcome(db, t, u, known, r, [first] + rest, IdsOf(orphan) + later)
  {
    assert |[first] + rest| == |rest| + 1;
    assert |IdsOf(orphan) + later| <= |IdsOf(orphan)| + |later| && |IdsOf(orphan)| <= 1;
    if db.FaultFree(t.requests, u.requests) {
      assert db.FaultFree(t.requests, m.requests) && db.FaultFree(m.requests, u.requests);
    }
  }

  /** The second half of an attempt of createProject, for a project just
      inserted and not yet linked: link it to every technology id; when that
      fails, delete the project again, ignoring the delete's own error, and
      report the link error. The row survives, as `orphan`, exactly when the
      compensating delete fails. */
  method LinkOrRollBack(db: Store, project: Id, techIds: seq<Id>) returns (error: Option<string>, ghost orphan: Option<Id>)
    requires db.Valid() && project in db.projects && LinkedTo(db.links, project) == {}
    modifies db`projects, db`links, db`requests
    ensures db.Valid()
    ensures db.requests == old(db.requests) + if error.Some? then 2 else 1
    ensures error.None? ==>
      orphan == None && db.projects == old(db.projects) && db.links == old(db.links) + LinksOf(project, techIds)
    ensures error.Some? ==>
      db.links == old(db.links) &&
      error == Some("Error linking technologies to project: " +
                    (if old(db.Pending()).Some? then old(db.Pending()).value.message else FOREIGN_KEY_MESSAGE))
    ensures error.Some? && orphan.None? ==> db.projects == old(db.projects) - {project}
    ensures orphan.Some? ==>
      error.Some? && orphan.value == project && db.projects == old(db.projects) && db.fault(old(db.requests) + 1).Some?
    ensures db.fault(old(db.requests)).Some? && db.fault(old(db.requests) + 1).Some? ==>
      error.Some? && orphan == Some(project) && db.projects == old(db.projects)
    ensures db.FaultFree(old(db.requests), db.requests) ==>
      orphan == None && (error.None? <==> KnownTechnologies(db.technologies, techIds))
    ensures error.None? <==> old(db.Pending()).None? && KnownTechnologies(db.technologies, techIds)
    ensures orphan.Some? <==> error.Some? && db.fault(old(db.requests) + 1).Some?
  {
    orphan := None;
    var linkError := db.InsertLinks(project, techIds);
    if linkError.Some? {
      var _ := db.DeleteProject(project);  // rollback; its error is not checked
      if project in db.projects {
        orphan := Some(project);
      }
      error := Some("Error linking technologies to project: " + linkError.value.message);
    } else {
      error := None;
    }
  }

  /** Whether an attempt of createProject that begins at request `s`
      resolves: the insert does not fail and, for a non-empty technology
      list, neither does the link insert, whose technologies must all be
      known. */
  predicate CreateResolves(db: Store, s: nat, techIds: seq<Id>)
  {
    db.fault(s).None? &&
    (|techIds| > 0 ==> db.fault(s + 1).None? && KnownTechnologies(db.technologies, techIds))
  }

  /** Whether an attempt of createProject that begins at request `s` leaves
      its new row behind: the insert gets through, the link insert does not,
      and neither does the compensating delete, its third request. */
  predicate CreateOrphans(db: Store, s: nat, techIds: seq<Id>)
  {
    db.fault(s).None? && |techIds| > 0 && !CreateResolves(db, s, techIds) && db.fault(s + 2).Some?
  }

  /** How many requests an attempt of createProject that begins at request
      `s` makes: the insert alone when it fails or no technology is given;
      the insert and the link insert when that succeeds; and the rollback
      besides when it does not. */
  function CreateWidth(db: Store, s: nat, techIds: seq<Id>): nat
  {
    if db.fault(s).Some? || |techIds| == 0 then 1
    else if CreateResolves(db, s, techIds) then 2
    else 3
  }

  /** What the attempt of createProject that issued requests `s` up to, but
      not including, `u` did: it made `CreateWidth` requests; it resolved
      exactly when its own requests let it (`CreateResolves`); and it left
      an orphan exactly when `CreateOrphans` says so. */
  predicate Began(db: Store, s: nat, u: nat, techIds: seq<Id>, r: Outcome<Project>, orphan: Option<Id>)
  {
    u == s + CreateWidth(db, s, techIds) &&
    (r.Returned? <==> CreateResolves(db, s, techIds)) &&
    (orphan.Some? <==> CreateOrphans(db, s, techIds))
  }

  /** The four ways one attempt of createProject can end, from tables `t`:
      its insert failed; it resolved; its link insert failed and the
      rollback deleted the new row; or its link insert failed and so did the
      rollback, leaving the new row as an orphan. */
  lemma InsertFailedAttempt(db: Store, t: Tables, fields: ProjectFields, techIds: seq<Id>, known: bool, r: Outcome<Project>)
    requires r.Threw? && db.fault(t.requests).Some?
    ensures Attempted(db, t, t.(requests := t.requests + 1), fields, techIds, known, r, None)
    ensures Began(db, t.requests, t.requests + 1, techIds, r, None)
  {
    assert IdsOf(None) + CreatedIds(r) == {};
  }

  lemma ResolvedAttempt(db: Store, t: Tables, fields: ProjectFields, techIds: seq<Id>, known: bool)
    requires known == KnownTechnologies(db.technologies, techIds)
    requires t.nextId !in t.projects && CreateResolves(db, t.requests, techIds)
    ensures Attempted(db, t, Tables(t.projects[t.nextId := fields], t.links + LinksOf(t.nextId, techIds), t.nextId + 1,
                                   t.requests + if |techIds| > 0 then 2 else 1),
                      fields, techIds, known, Returned(Project(t.nextId, fields)), None)
    ensures Began(db, t.requests, t.requests + if |techIds| > 0 then 2 else 1, techIds, Returned(Project(t.nextId, fields)), None)
  {
    assert IdsOf(None) + CreatedIds(Returned(Project(t.nextId, fields))) == {t.nextId};
  }

  lemma RolledBackAttempt(db: Store, t: Tables, fields: ProjectFields, techIds: seq<Id>, known: bool, r: Outcome<Project>)
    requires known == KnownTechnologies(db.technologies, techIds)
    requires r.Threw? && |techIds| > 0 && db.fault(t.requests).None? && !CreateResolves(db, t.requests, techIds)
    requires db.fault(t.requests + 2).None?
    ensures Attempted(db, t, Tables(t.projects, t.links, t.nextId + 1, t.requests + 3), fields, techIds, known, r, None)
    ensures Began(db, t.requests, t.requests + 3, techIds, r, None)
  {
    assert IdsOf(None) + CreatedIds(r) == {};
    if db.FaultFree(t.requests, t.requests + 3) {
      assert db.fault(t.requests + 1).None?;
    }
  }

  lemma OrphanedAttempt(db: Store, t: Tables, fields: ProjectFields, techIds: seq<Id>, known: bool, r: Outcome<Project>)
    requires r.Threw? && t.nextId !in t.projects && CreateOrphans(db, t.requests, techIds)
    ensures Attempted(db, t, Tables(t.projects[t.nextId := fields], t.links, t.nextId + 1, t.requests + 3),
                      fields, techIds, known, r, Some(t.nextId))
    ensures Began(db, t.requests, t.requests + 3, techIds, r, Some(t.nextId))
  {
    assert IdsOf(Some(t.nextId)) + CreatedIds(r) == {t.nextId};
  }

  /** The attempts of a complete createProject, one per entry of `trace`,
      began at the request numbers `starts`, from `from` up to `upto`:
      attempt k made exactly `CreateWidth` requests and resolved exactly
      when `CreateResolves` holds at its first request; and a row is an
      orphan only if some attempt got its insert through but neither its
      link insert nor its rollback (`CreateOrphans`). */
  ghost predicate CreateAttempts(db: Store, from: nat, upto: nat, techIds: seq<Id>,
                                 trace: seq<Outcome<Project>>, starts: seq<nat>, orphans: set<Id>)
  {
    |starts| == |trace| && Consecutive(starts, from, upto) &&
    (forall k :: 0 <= k < |trace| ==> AttemptEnd(starts, k, upto) == starts[k] + CreateWidth(db, starts[k], techIds)) &&
    (forall k :: 0 <= k < |trace| ==> (trace[k].Returned? <==> CreateResolves(db, starts[k], techIds))) &&
    (forall id :: id in orphans ==> exists k :: 0 <= k < |starts| && CreateOrphans(db, starts[k], techIds))
  }

  /** The attempts of a call settled by its first attempt. */
  lemma CreateAttemptsOne(db: Store, s: nat, u: nat, techIds: seq<Id>, r: Outcome<Project>, orphan: Option<Id>)
    requires Began(db, s, u, techIds, r, orphan)
    ensures CreateAttempts(db, s, u, techIds, [r], [s], IdsOf(orphan))
  {
    assert AttemptEnd([s], 0, u) == u;
    forall id | id in IdsOf(orphan) ensures exists k :: 0 <= k < |[s]| && CreateOrphans(db, [s][k], techIds) {
      assert [s][0] == s;
    }
  }

  /** A failed attempt followed by the attempts of the rest of the call. */
  lemma CreateAttemptsAgain(db: Store, s: nat, m: nat, u: nat, techIds: seq<Id>,
                            first: Outcome<Project>, orphan: Option<Id>,
                            rest: seq<Outcome<Project>>, later: seq<nat>, laterOrphans: set<Id>)
    requires Began(db, s, m, techIds, first, orphan)
    requires CreateAttempts(db, m, u, techIds, rest, later, laterOrphans)
    ensures CreateAttempts(db, s, u, techIds, [first] + rest, [s] + later, IdsOf(orphan) + laterOrphans)
  {
    var trace, starts := [first] + rest, [s] + later;
    AttemptEndCons(s, later, u);
    forall k | 0 <= k < |trace|
      ensures starts[k] < AttemptEnd(starts, k, u)
      ensures AttemptEnd(starts, k, u) == starts[k] + CreateWidth(db, starts[k], techIds)
      ensures trace[k].Returned? <==> CreateResolves(db, starts[k], techIds)
    {
      if k > 0 {
        assert trace[k] == rest[k - 1] && starts[k] == later[k - 1];
      }
    }
    RollbackFailedAgain(db, s, techIds, orphan, later, laterOrphans);
  }

  /** The orphans of a failed attempt and of the attempts after it each
      come from an attempt that left its row behind. */
  lemma RollbackFailedAgain(db: Store, s: nat, techIds: seq<Id>, orphan: Option<Id>, later: seq<nat>, laterOrphans: set<Id>)
    requires orphan.Some? ==> CreateOrphans(db, s, techIds)
    requires forall id :: id in laterOrphans ==> exists k :: 0 <= k < |later| && CreateOrphans(db, later[k], techIds)
    ensures forall id :: id in IdsOf(orphan) + laterOrphans ==>
      exists k :: 0 <= k < |[s] + later| && CreateOrphans(db, ([s] + later)[k], techIds)
  {
    var starts := [s] + later;
    forall id | id in IdsOf(orphan) + laterOrphans ensures exists k :: 0 <= k < |starts| && CreateOrphans(db, starts[k], techIds) {
      if id in laterOrphans {
        var j :| 0 <= j < |later| && CreateOrphans(db, later[j], techIds);
        assert starts[j + 1] == later[j];
      } else {
        assert starts[0] == s;
      }
    }
  }

  /** When the project insert of every attempt fails, nothing is written:
      no row is orphaned, and both tables are as before the call. */
  lemma NoInsertNoWrite(db: Store, t: Tables, u: Tables, fields: ProjectFields, techIds: seq<Id>, known: bool,
                        retries: nat, r: Outcome<Project>, trace: seq<Outcome<Project>>, orphans: set<Id>, starts: seq<nat>)
    requires Retried(db, t, u, fields, techIds, known, retries, r, trace, orphans)
    requires CreateAttempts(db, t.requests, u.requests, techIds, trace, starts, orphans)
    requires forall k :: 0 <= k < |starts| ==> db.fault(starts[k]).Some?
    ensures r.Threw? && orphans == {}
    ensures u.projects == t.projects && u.links == t.links
  {
    assert !CreateResolves(db, starts[|trace| - 1], techIds);
    assert forall k :: 0 <= k < |starts| ==> !CreateOrphans(db, starts[k], techIds);
    assert forall id :: id !in orphans;
    assert orphans + CreatedIds(r) == {};
  }

  /** One invocation of the operation createProject wraps: insert the
      project; when technology ids are given, link them, and if that fails
      delete the new project again before throwing. The compensating delete's
      own error is ignored, so the row survives when that delete fails; the
      id of such a row is reported as `orphan`. */
  method CreateProjectOnce(db: Store, fields: ProjectFields, techIds: seq<Id>) returns (r: Outcome<Project>, ghost orphan: Option<Id>)
    requires db.Valid()
    modifies db`projects, db`links, db`nextId, db`requests
    ensures db.Valid()
    ensures Attempted(db, old(TablesOf(db)), TablesOf(db), fields, techIds, KnownTechnologies(db.technologies, techIds), r, orphan)
    ensures r.Returned? ==> r.value.id == old(db.nextId)
    ensures old(db.Pending()).Some? ==>
      r == Threw("Error creating project: " + old(db.Pending()).value.message) && orphan == None
    ensures r.Threw? && old(db.Pending()).None? ==>
      |techIds| > 0 &&
      r == Threw("Error linking technologies to project: " +
                 (if db.fault(old(db.requests) + 1).Some? then db.fault(old(db.requests) + 1).value.message
                  else FOREIGN_KEY_MESSAGE))
    ensures orphan.Some? ==> orphan.value == old(db.nextId) && db.fault(old(db.requests) + 2).Some?
    ensures r.Returned? <==> CreateResolves(db, old(db.requests), techIds)
    ensures Began(db, old(db.requests), db.requests, techIds, r, orphan)
  {
    ghost var t, known := TablesOf(db), KnownTechnologies(db.technologies, techIds);
    orphan := None;
    var inserted := db.InsertProject(fields);
    if inserted.Err? {
      r := Threw("Error creating project: " + inserted.error.message);
      assert TablesOf(db) == t.(requests := t.requests + 1);
      InsertFailedAttempt(db, t, fields, techIds, known, r);
      return;
    }
    var project := inserted.data;
    assert project.id !in old(db.projects);
    if |techIds| > 0 {
      assert LinkedTo(db.links, project.id) == {} by {
        assert forall l :: l in db.links ==> l.project in old(db.projects);
      }
      var error;
      error, orphan := LinkOrRollBack(db, project.id, techIds);
      if error.Some? {
        r := Threw(error.value);
        if orphan.None? {
          assert db.projects == old(db.projects);
          assert TablesOf(db) == Tables(t.projects, t.links, t.nextId + 1, t.requests + 3);
          RolledBackAttempt(db, t, fields, techIds, known, r);
        } else {
          assert TablesOf(db) == Tables(t.projects[t.nextId := fields], t.links, t.nextId + 1, t.requests + 3);
          OrphanedAttempt(db, t, fields, techIds, known, r);
        }
        return;
      }
    }
    r := Returned(project);
    assert TablesOf(db) == Tables(t.projects[t.nextId := fields], t.links + LinksOf(t.nextId, techIds), t.nextId + 1,
                                  t.requests + if |techIds| > 0 then 2 else 1);
    ResolvedAttempt(db, t, fields, techIds, known);
  }

  /** createProject: withRetry around the insert-link-rollback sequence,
      written as withRetry's own recursion over the `retries` still granted
      (createProject grants MAX_RETRIES). See `Retried` for what it
      guarantees. */
  method CreateProject(db: Store, fields: ProjectFields, techIds: seq<Id>, retries: nat)
    returns (r: Outcome<Project>, ghost trace: seq<Outcome<Project>>, ghost orphans: set<Id>, ghost starts: seq<nat>)
    requires db.Valid()
    modifies db`projects, db`links, db`nextId, db`requests
    ensures db.Valid()
    ensures Retried(db, old(TablesOf(db)), TablesOf(db), fields, techIds, KnownTechnologies(db.technologies, techIds), retries, r, trace, orphans)
    ensures CreateAttempts(db, old(db.requests), db.requests, techIds, trace, starts, orphans)
    decreases retries
  {
    ghost var orphan;
    ghost var t, known := TablesOf(db), KnownTechnologies(db.technologies, techIds);
    ghost var s := db.requests;
    r, orphan := CreateProjectOnce(db, fields, techIds);
    if r.Threw? && retries > 0 {
      ghost var first, m, n := r, TablesOf(db), db.requests;
      ghost var rest, later, laterStarts;
      r, rest, later, laterStarts := CreateProject(db, fields, techIds, retries - 1);
      RetriedAgain(db, t, m, TablesOf(db), fields, techIds, known, retries, first, orphan, r, rest, later);
      CreateAttemptsAgain(db, s, n, db.requests, techIds, first, orphan, rest, laterStarts, later);
      trace, orphans, starts := [first] + rest, IdsOf(orphan) + later, [s] + laterStarts;
    } else {
      CreateAttemptsOne(db, s, db.requests, techIds, r, orphan);
      RetriedOnce(db, t, TablesOf(db), fields, techIds, known, retries, r, orphan);
      trace, orphans, starts := [r], IdsOf(orphan), [s];
    }
  }

  /** On requests that do not fail, createProject with known technologies
      makes one attempt, which adds exactly the new project and its links. */
  lemma CreatedFaultFree(db: Store, t: Tables, u: Tables, fields: ProjectFields, techIds: seq<Id>,
                         retries: nat, r: Outcome<Project>, trace: seq<Outcome<Project>>, orphans: set<Id>)
    requires Retried(db, t, u, fields, techIds, true, retries, r, trace, orphans)
    requires db.FaultFree(t.requests, u.requests)
    ensures r.Returned? && |trace| == 1 && orphans == {}
    ensures r.value.fields == fields && t.nextId <= r.value.id && r.value.id !in t.projects
    ensures u.projects == t.projects[r.value.id := fields]
    ensures u.links == t.links + LinksOf(r.value.id, techIds)
  {
    assert r.value.id in orphans + CreatedIds(r);
  }

  /** On requests that do not fail, createProject with an unknown technology
      spends every retry, rolls every attempt back, and throws with the
      tables as they were. */
  lemma RejectedFaultFree(db: Store, t: Tables, u: Tables, fields: ProjectFields, techIds: seq<Id>,
                          retries: nat, r: Outcome<Project>, trace: seq<Outcome<Project>>, orphans: set<Id>)
    requires Retried(db, t, u, fields, techIds, false, retries, r, trace, orphans)
    requires db.FaultFree(t.requests, u.requests)
    ensures r.Threw? && |trace| == retries + 1 && orphans == {}
    ensures u.projects == t.projects && u.links == t.links
  {
    assert orphans + CreatedIds(r) == {};
  }

  /** What updateProject may have done to the tables, from `t` to `u`, when
      it settles with `r`: a missing project is an error that changes
      nothing; the row is either untouched or patched once, and patched when
      `r` resolves; the join rows of other projects are untouched; without a
      technology list the links are untouched; with one, success leaves
      exactly the supplied links of the project (an empty list clears them),
      and a failure leaves either its old links or none. */
  ghost predicate Updated(t: Tables, u: Tables, id: Id, patch: ProjectPatch, techIds: Option<seq<Id>>, r: Outcome<Project>)
  {
    (id !in t.projects ==> r.Threw? && u.projects == t.projects && u.links == t.links) &&
    (u.projects == t.projects || (id in t.projects && u.projects == t.projects[id := Patched(t.projects[id], patch)])) &&
    (r.Returned? ==>
       id in t.projects && r.value == Project(id, Patched(t.projects[id], patch)) &&
       u.projects == t.projects[id := Patched(t.projects[id], patch)]) &&
    Without(u.links, id) == Without(t.links, id) &&
    (techIds.None? ==> u.links == t.links) &&
    (techIds.Some? && r.Returned? ==> u.links == Without(t.links, id) + LinksOf(id, techIds.value)) &&
    (techIds.Some? && r.Threw? ==> u.links == t.links || u.links == Without(t.links, id))
  }

  /** Whether an attempt of updateProject that begins at request `s`
      resolves: the project is `found`, its row update does not fail, and,
      when a technology list is given, neither does the delete of its links
      nor, for a non-empty list, the insert, whose technologies must all be
      known. */
  predicate UpdateResolves(db: Store, s: nat, found: bool, techIds: Option<seq<Id>>)
  {
    found && db.fault(s).None? &&
    (techIds.Some? ==>
       db.fault(s + 1).None? &&
       (|techIds.value| > 0 ==> db.fault(s + 2).None? && KnownTechnologies(db.technologies, techIds.value)))
  }

  /** Whether an attempt of updateProject that begins at request `s` gets
      as far as deleting the project's join rows: the project is `found`
      and neither its row update nor the link delete fails. */
  predicate UpdateDeleted(db: Store, s: nat, found: bool)
  {
    found && db.fault(s).None? && db.fault(s + 1).None?
  }

  /** Whether any of the attempts of updateProject that began at `starts`
      got its row update through on a `found` project. */
  predicate AnyUpdatePatched(db: Store, starts: seq<nat>, found: bool)
  {
    exists k :: 0 <= k < |starts| && found && db.fault(starts[k]).None?
  }

  /** Whether any of the attempts of updateProject that began at `starts`
      got as far as deleting the project's join rows. */
  predicate AnyUpdateDeleted(db: Store, starts: seq<nat>, found: bool)
  {
    exists k :: 0 <= k < |starts| && UpdateDeleted(db, starts[k], found)
  }

  /** How many requests an attempt of updateProject that begins at request
      `s` makes: the row update alone when it fails, finds nothing, or no
      technology list is given; the link delete besides, when that fails or
      the list is empty; and the link insert besides otherwise. */
  function UpdateWidth(db: Store, s: nat, found: bool, techIds: Option<seq<Id>>): nat
  {
    if !found || db.fault(s).Some? || techIds.None? then 1
    else if db.fault(s + 1).Some? || |techIds.value| == 0 then 2
    else 3
  }

  /** A failed attempt followed by another attempt has the effect of one
      attempt: the row write is idempotent, and so is deleting the links. */
  lemma UpdatedTwice(t: Tables, m: Tables, u: Tables, id: Id, patch: ProjectPatch, techIds: Option<seq<Id>>,
                     first: Outcome<Project>, r: Outcome<Project>)
    requires Updated(t, m, id, patch, techIds, first) && first.Threw?
    requires Updated(m, u, id, patch, techIds, r)
    ensures Updated(t, u, id, patch, techIds, r)
  {
    if id in t.projects {
      PatchIdempotent(t.projects[id], patch);
    }
    if techIds.Some? {
      assert Without(Without(t.links, id), id) == Without(t.links, id);
    }
  }

  /** The technology half of an attempt of updateProject, for an existing
      project: delete all of its join rows, then insert one per supplied id
      (no insert at all for an empty list); the join rows of other projects
      are never touched. */
  method ReplaceLinks(db: Store, id: Id, techIds: seq<Id>) returns (error: Option<string>)
    requires db.Valid() && id in db.projects
    modifies db`links, db`requests
    ensures db.Valid()
    ensures db.requests == old(db.requests) + if old(db.Pending()).Some? || |techIds| == 0 then 1 else 2
    ensures Without(db.links, id) == Without(old(db.links), id)
    ensures old(db.Pending()).Some? ==>
      error == Some("Error deleting old technologies for project: " + old(db.Pending()).value.message) &&
      db.links == old(db.links)
    ensures old(db.Pending()).None? && error.Some? ==>
      db.links == Without(old(db.links), id) &&
      error == Some("Error inserting new technologies for project: " +
                    (if db.fault(old(db.requests) + 1).Some? then db.fault(old(db.requests) + 1).value.message
                     else FOREIGN_KEY_MESSAGE))
    ensures error.None? ==> db.links == Without(old(db.links), id) + LinksOf(id, techIds)
    ensures db.FaultFree(old(db.requests), db.requests) && KnownTechnologies(db.technologies, techIds) ==> error.None?
    ensures error.None? <==>
      old(db.Pending()).None? &&
      (|techIds| > 0 ==> db.fault(old(db.requests) + 1).None? && KnownTechnologies(db.technologies, techIds))
  {
    var deleteError := db.DeleteLinks(id);
    if deleteError.Some? {
      error := Some("Error deleting old technologies for project: " + deleteError.value.message);
      return;
    }
    if |techIds| > 0 {
      var insertError := db.InsertLinks(id, techIds);
      if insertError.Some? {
        error := Some("Error inserting new technologies for project: " + insertError.value.message);
        return;
      }
    } else {
      assert LinksOf(id, techIds) == {};
    }
    error := None;
  }

  /** One invocation of the operation updateProject wraps: write the row;
      then, only when a technology list is supplied, delete all of the
      project's join rows and insert one per supplied id (none for an empty
      list). A failure at any step throws. */
  method UpdateProjectOnce(db: Store, id: Id, patch: ProjectPatch, techIds: Option<seq<Id>>) returns (r: Outcome<Project>)
    requires db.Valid()
    modifies db`projects, db`links, db`requests
    ensures db.Valid()
    ensures db.requests == old(db.requests) + UpdateWidth(db, old(db.requests), id in old(db.projects), techIds)
    ensures Updated(old(TablesOf(db)), TablesOf(db), id, patch, techIds, r)
    ensures !(old(db.Pending()).None? && id in old(db.projects)) ==>
      r == Threw("Error updating project: " +
                 (if old(db.Pending()).Some? then old(db.Pending()).value.message else NO_ROWS_MESSAGE))
    ensures old(db.Pending()).None? && id in old(db.projects) ==>
      db.projects == old(db.projects)[id := Patched(old(db.projects)[id], patch)]
    ensures old(db.Pending()).Some? ==> db.projects == old(db.projects)
    ensures techIds.None? && old(db.Pending()).None? && id in old(db.projects) ==> r.Returned?
    ensures techIds.Some? && old(db.Pending()).None? && id in old(db.projects) && db.fault(old(db.requests) + 1).Some? ==>
      r == Threw("Error deleting old technologies for project: " + db.fault(old(db.requests) + 1).value.message) &&
      db.links == old(db.links)
    ensures techIds.Some? && r.Threw? && old(db.Pending()).None? && id in old(db.projects) && db.fault(old(db.requests) + 1).None? ==>
      db.links == Without(old(db.links), id) &&
      r == Threw("Error inserting new technologies for project: " +
                 (if db.fault(old(db.requests) + 2).Some? then db.fault(old(db.requests) + 2).value.message
                  else FOREIGN_KEY_MESSAGE))
    ensures (db.FaultFree(old(db.requests), db.requests) && id in old(db.projects) &&
             (techIds.Some? ==> KnownTechnologies(db.technologies, techIds.value))) ==> r.Returned?
    ensures r.Returned? <==> UpdateResolves(db, old(db.requests), id in old(db.projects), techIds)
    ensures techIds.Some? && r.Threw? ==>
      db.links == if UpdateDeleted(db, old(db.requests), id in old(db.projects)) then Without(old(db.links), id) else old(db.links)
  {
    var updated := db.UpdateProject(id, patch);
    if updated.Err? {
      r := Threw("Error updating project: " + updated.error.message);
      return;
    }
    if techIds.Some? {
      var error := ReplaceLinks(db, id, techIds.value);
      if error.Some? {
        r := Threw(error.value);
        return;
      }
    }
    r := Returned(updated.data);
  }

  /** The attempts of a complete updateProject, one per entry of `trace`,
      began at the request numbers `starts`, from `from` up to `upto`:
      attempt k made exactly `UpdateWidth` requests and resolved exactly
      when `UpdateResolves` holds at its first request. */
  ghost predicate UpdateAttempts(db: Store, from: nat, upto: nat, found: bool, techIds: Option<seq<Id>>,
                                 trace: seq<Outcome<Project>>, starts: seq<nat>)
  {
    |starts| == |trace| && Consecutive(starts, from, upto) &&
    (forall k :: 0 <= k < |trace| ==> AttemptEnd(starts, k, upto) == starts[k] + UpdateWidth(db, starts[k], found, techIds)) &&
    (forall k :: 0 <= k < |trace| ==> (trace[k].Returned? <==> UpdateResolves(db, starts[k], found, techIds)))
  }

  /** The attempts of a call settled by its first attempt. */
  lemma UpdateAttemptsOne(db: Store, s: nat, u: nat, found: bool, techIds: Option<seq<Id>>, r: Outcome<Project>)
    requires u == s + UpdateWidth(db, s, found, techIds) && (r.Returned? <==> UpdateResolves(db, s, found, techIds))
    ensures UpdateAttempts(db, s, u, found, techIds, [r], [s])
  {
    assert AttemptEnd([s], 0, u) == u;
  }

  /** A failed attempt followed by the attempts of the rest of the call. */
  lemma UpdateAttemptsAgain(db: Store, s: nat, m: nat, u: nat, found: bool, techIds: Option<seq<Id>>,
                            first: Outcome<Project>, rest: seq<Outcome<Project>>, later: seq<nat>)
    requires m == s + UpdateWidth(db, s, found, techIds) && (first.Returned? <==> UpdateResolves(db, s, found, techIds))
    requires UpdateAttempts(db, m, u, found, techIds, rest, later)
    ensures UpdateAttempts(db, s, u, found, techIds, [first] + rest, [s] + later)
  {
    var trace, starts := [first] + rest, [s] + later;
    AttemptEndCons(s, later, u);
    forall k | 0 <= k < |trace|
      ensures starts[k] < AttemptEnd(starts, k, u)
      ensures AttemptEnd(starts, k, u) == starts[k] + UpdateWidth(db, starts[k], found, techIds)
      ensures trace[k].Returned? <==> UpdateResolves(db, starts[k], found, techIds)
    {
      if k > 0 {
        assert trace[k] == rest[k - 1] && starts[k] == later[k - 1];
      }
    }
  }

  /** The links after a failed attempt of updateProject, from `t` to `m`,
      and the failed attempts after it, from `m` to `u`: the project's join
      rows are gone exactly when some attempt got its link delete through,
      since deleting them again changes nothing. */
  lemma UpdateDeletedAgain(db: Store, found: bool, s: nat, later: seq<nat>, t: set<Link>, m: set<Link>, u: set<Link>, id: Id)
    requires m == if UpdateDeleted(db, s, found) then Without(t, id) else t
    requires u == if AnyUpdateDeleted(db, later, found) then Without(m, id) else m
    ensures u == if AnyUpdateDeleted(db, [s] + later, found) then Without(t, id) else t
  {
    var starts := [s] + later;
    assert Without(Without(t, id), id) == Without(t, id);
    var anyLater := AnyUpdateDeleted(db, later, found);
    var any := AnyUpdateDeleted(db, starts, found);
    assert any <==> UpdateDeleted(db, s, found) || anyLater by {
      if anyLater {
        var k :| 0 <= k < |later| && UpdateDeleted(db, later[k], found);
        assert starts[k + 1] == later[k];
      }
      if any {
        var k :| 0 <= k < |starts| && UpdateDeleted(db, starts[k], found);
        if k > 0 {
          assert starts[k] == later[k - 1];
        }
      }
      assert starts[0] == s;
    }
  }

  /** The row after a failed attempt of updateProject, from `t` to `m`, and
      the attempts after it, from `m` to `u`: the row is patched exactly
      when some attempt got its row update through, since patching twice
      is patching once. */
  lemma UpdatePatchedAgain(db: Store, found: bool, s: nat, later: seq<nat>,
                           t: map<Id, ProjectFields>, m: map<Id, ProjectFields>, u: map<Id, ProjectFields>,
                           id: Id, patch: ProjectPatch)
    requires found <==> id in t
    requires m == if found && db.fault(s).None? then t[id := Patched(t[id], patch)] else t
    requires u == if AnyUpdatePatched(db, later, found) then m[id := Patched(m[id], patch)] else m
    ensures u == if AnyUpdatePatched(db, [s] + later, found) then t[id := Patched(t[id], patch)] else t
  {
    var starts := [s] + later;
    if found {
      PatchIdempotent(t[id], patch);
    }
    var anyLater := AnyUpdatePatched(db, later, found);
    var any := AnyUpdatePatched(db, starts, found);
    assert any <==> (found && db.fault(s).None?) || anyLater by {
      if anyLater {
        var k :| 0 <= k < |later| && found && db.fault(later[k]).None?;
        assert starts[k + 1] == later[k];
      }
      if any {
        var k :| 0 <= k < |starts| && found && db.fault(starts[k]).None?;
        if k > 0 {
          assert starts[k] == later[k - 1];
        }
      }
      assert starts[0] == s;
    }
  }

  /** What one attempt of updateProject does, from tables `t` to tables
      `u`: it makes `UpdateWidth` requests and resolves exactly when
      `UpdateResolves` holds at its first request; it changes the tables as
      `Updated` allows; a failure leaves the project's join rows deleted
      exactly when the link delete went through; the row is patched exactly
      when the row update went through on an existing project; and when no
      request failed on an existing project with known technologies it
      resolves. */
  ghost predicate UpdateStep(db: Store, t: Tables, u: Tables, id: Id, patch: ProjectPatch, techIds: Option<seq<Id>>,
                             r: Outcome<Project>)
  {
    u.requests == t.requests + UpdateWidth(db, t.requests, id in t.projects, techIds) &&
    (r.Returned? <==> UpdateResolves(db, t.requests, id in t.projects, techIds)) &&
    Updated(t, u, id, patch, techIds, r) &&
    (techIds.Some? && r.Threw? ==>
       u.links == if UpdateDeleted(db, t.requests, id in t.projects) then Without(t.links, id) else t.links) &&
    u.projects == (if id in t.projects && db.fault(t.requests).None? then t.projects[id := Patched(t.projects[id], patch)]
                   else t.projects) &&
    ((db.FaultFree(t.requests, u.requests) && id in t.projects &&
      (techIds.Some? ==> KnownTechnologies(db.technologies, techIds.value))) ==> r.Returned?)
  }

  /** What a complete updateProject with `retries` retries granted does,
      from tables `t` to tables `u`, having recorded `trace` and begun its
      attempts at `starts`: a complete withRetry run; attempts laid out as
      `UpdateAttempts` says; the tables changed as one attempt may change
      them (`Updated`); after a failure the project's join rows are deleted
      exactly when some attempt got its link delete through; the row is
      patched exactly when some attempt got its row update through; and
      when no request fails on an existing project with known technologies,
      the first attempt resolves. */
  ghost predicate UpdateRun(db: Store, t: Tables, u: Tables, id: Id, patch: ProjectPatch, techIds: Option<seq<Id>>,
                            retries: nat, r: Outcome<Project>, trace: seq<Outcome<Project>>, starts: seq<nat>)
  {
    IsRun(trace, retries) && r == Last(trace) &&
    t.requests < u.requests <= t.requests + 3 * |trace| &&
    UpdateAttempts(db, t.requests, u.requests, id in t.projects, techIds, trace, starts) &&
    Updated(t, u, id, patch, techIds, r) &&
    (techIds.Some? && r.Threw? ==>
       u.links == if AnyUpdateDeleted(db, starts, id in t.projects) then Without(t.links, id) else t.links) &&
    u.projects == (if AnyUpdatePatched(db, starts, id in t.projects) then t.projects[id := Patched(t.projects[id], patch)]
                   else t.projects) &&
    ((db.FaultFree(t.requests, u.requests) && id in t.projects &&
      (techIds.Some? ==> KnownTechnologies(db.technologies, techIds.value))) ==> r.Returned? && |trace| == 1)
  }

  /** withRetry settles on the first attempt when it resolves or no retry is
      left. */
  lemma UpdateRunOne(db: Store, t: Tables, u: Tables, id: Id, patch: ProjectPatch, techIds: Option<seq<Id>>,
                     retries: nat, r: Outcome<Project>)
    requires UpdateStep(db, t, u, id, patch, techIds, r) && (r.Returned? || retries == 0)
    ensures UpdateRun(db, t, u, id, patch, techIds, retries, r, [r], [t.requests])
  {
    RunOfOne(r, retries);
    UpdateAttemptsOne(db, t.requests, u.requests, id in t.projects, techIds, r);
    var starts := [t.requests];
    assert AnyUpdateDeleted(db, starts, id in t.projects) <==> UpdateDeleted(db, starts[0], id in t.projects);
    assert AnyUpdatePatched(db, starts, id in t.projects) <==> id in t.projects && db.fault(starts[0]).None?;
  }

  /** A failed attempt followed by a complete updateProject with one retry
      fewer is a complete updateProject. */
  lemma UpdateRunAgain(db: Store, t: Tables, m: Tables, u: Tables, id: Id, patch: ProjectPatch, techIds: Option<seq<Id>>,
                       retries: nat, first: Outcome<Project>, r: Outcome<Project>, rest: seq<Outcome<Project>>, later: seq<nat>)
    requires UpdateStep(db, t, m, id, patch, techIds, first) && first.Threw? && retries > 0
    requires id in m.projects <==> id in t.projects
    requires UpdateRun(db, m, u, id, patch, techIds, retries - 1, r, rest, later)
    ensures UpdateRun(db, t, u, id, patch, techIds, retries, r, [first] + rest, [t.requests] + later)
  {
    UpdatedTwice(t, m, u, id, patch, techIds, first, r);
    RunCons(first, rest, retries);
    assert db.FaultFree(t.requests, u.requests) ==> db.FaultFree(t.requests, m.requests);
    UpdateAttemptsAgain(db, t.requests, m.requests, u.requests, id in t.projects, techIds, first, rest, later);
    if techIds.Some? && r.Threw? {
      UpdateDeletedAgain(db, id in t.projects, t.requests, later, t.links, m.links, u.links, id);
    }
    UpdatePatchedAgain(db, id in t.projects, t.requests, later, t.projects, m.projects, u.projects, id, patch);
  }

  /** updateProject: withRetry around the write sequence, as withRetry's own
      recursion (updateProject grants MAX_RETRIES). See `UpdateRun` for what
      it guarantees: however many attempts ran, the tables changed as one
      attempt may change them, a missing project is retried and then
      thrown, and when no request fails on an existing project with known
      technologies, the first attempt resolves. */
  method UpdateProject(db: Store, id: Id, patch: ProjectPatch, techIds: Option<seq<Id>>, retries: nat)
    returns (r: Outcome<Project>, ghost trace: seq<Outcome<Project>>, ghost starts: seq<nat>)
    requires db.Valid()
    modifies db`projects, db`links, db`requests
    ensures db.Valid()
    ensures UpdateRun(db, old(TablesOf(db)), TablesOf(db), id, patch, techIds, retries, r, trace, starts)
    decreases retries
  {
    ghost var t := TablesOf(db);
    r := UpdateProjectOnce(db, id, patch, techIds);
    assert UpdateStep(db, t, TablesOf(db), id, patch, techIds, r);
    if r.Threw? && retries > 0 {
      ghost var first, m := r, TablesOf(db);
      ghost var rest;
      ghost var later;
      r, rest, later := UpdateProject(db, id, patch, techIds, retries - 1);
      UpdateRunAgain(db, t, m, TablesOf(db), id, patch, techIds, retries, first, r, rest, later);
      trace, starts := [first] + rest, [t.requests] + later;
    } else {
      UpdateRunOne(db, t, TablesOf(db), id, patch, techIds, retries, r);
      trace, starts := [r], [t.requests];
    }
  }

  /** What deleteProject may have done to the tables, from `t` to `u`, when
      it settles with `r`: on success the project and all of its join rows
      are gone and nothing else is touched; on failure the project row is
      still there, with its links either intact or already removed. */
  ghost predicate Deleted(t: Tables, u: Tables, id: Id, r: Outcome<bool>)
  {
    (r.Returned? ==> r.value && u.projects == t.projects - {id} && u.links == Without(t.links, id)) &&
    (r.Threw? ==> u.projects == t.projects && (u.links == t.links || u.links == Without(t.links, id)))
  }

  /** A failed attempt followed by another attempt has the effect of one. */
  lemma DeletedTwice(t: Tables, m: Tables, u: Tables, id: Id, first: Outcome<bool>, r: Outcome<bool>)
    requires Deleted(t, m, id, first) && first.Threw?
    requires Deleted(m, u, id, r)
    ensures Deleted(t, u, id, r)
  {
    assert Without(Without(t.links, id), id) == Without(t.links, id);
  }

  /** Whether any of the attempts of deleteProject that began at `starts`
      got its link delete through. */
  predicate AnyLinksDeleted(db: Store, starts: seq<nat>)
  {
    exists k :: 0 <= k < |starts| && db.fault(starts[k]).None?
  }

  /** How many requests an attempt of deleteProject that begins at request
      `s` makes: the link delete alone when it fails, and the project delete
      besides otherwise. */
  function DeleteWidth(db: Store, s: nat): nat
  {
    if db.fault(s).Some? then 1 else 2
  }

  /** One invocation of the operation deleteProject wraps: delete the join
      rows first, then the project; either failure throws. */
  method DeleteProjectOnce(db: Store, id: Id) returns (r: Outcome<bool>)
    requires db.Valid()
    modifies db`projects, db`links, db`requests
    ensures db.Valid()
    ensures Deleted(old(TablesOf(db)), TablesOf(db), id, r)
    ensures old(db.Pending()).Some? ==>
      r == Threw("Error deleting project technologies: " + old(db.Pending()).value.message) &&
      db.links == old(db.links) && db.requests == old(db.requests) + 1
    ensures old(db.Pending()).None? ==>
      db.links == Without(old(db.links), id) && db.requests == old(db.requests) + 2
    ensures old(db.Pending()).None? && db.fault(old(db.requests) + 1).Some? ==>
      r == Threw("Error deleting project: " + db.fault(old(db.requests) + 1).value.message)
    ensures old(db.Pending()).None? && db.fault(old(db.requests) + 1).None? ==> r == Returned(true)
    ensures r.Returned? <==> db.FaultFree(old(db.requests), old(db.requests) + 2)
    ensures db.requests == old(db.requests) + DeleteWidth(db, old(db.requests))
  {
    var linkError := db.DeleteLinks(id);
    if linkError.Some? {
      r := Threw("Error deleting project technologies: " + linkError.value.message);
      return;
    }
    LinkedToWithout(old(db.links), id);
    var error := db.DeleteProject(id);
    if error.Some? {
      r := Threw("Error deleting project: " + error.value.message);
      return;
    }
    r := Returned(true);
    assert db.FaultFree(old(db.requests), old(db.requests) + 2) by {
      forall k | old(db.requests) <= k < old(db.requests) + 2 ensures db.fault(k).None? {
        if k == old(db.requests) + 1 {
        }
      }
    }
  }

  /** The attempts of a complete deleteProject, one per entry of `trace`,
      began at the request numbers `starts`, from `from` up to `upto`:
      attempt k made exactly `DeleteWidth` requests and succeeded exactly
      when both of its requests went through. */
  ghost predicate DeleteAttempts(db: Store, from: nat, upto: nat, trace: seq<Outcome<bool>>, starts: seq<nat>)
  {
    |starts| == |trace| && Consecutive(starts, from, upto) &&
    (forall k :: 0 <= k < |trace| ==> AttemptEnd(starts, k, upto) == starts[k] + DeleteWidth(db, starts[k])) &&
    (forall k :: 0 <= k < |trace| ==> (trace[k].Returned? <==> db.FaultFree(starts[k], starts[k] + 2)))
  }

  /** The attempts of a call settled by its first attempt. */
  lemma DeleteAttemptsOne(db: Store, s: nat, u: nat, r: Outcome<bool>)
    requires u == s + DeleteWidth(db, s) && (r.Returned? <==> db.FaultFree(s, s + 2))
    ensures DeleteAttempts(db, s, u, [r], [s])
  {
    assert AttemptEnd([s], 0, u) == u;
  }

  /** A failed attempt followed by the attempts of the rest of the call. */
  lemma DeleteAttemptsAgain(db: Store, s: nat, m: nat, u: nat, first: Outcome<bool>, rest: seq<Outcome<bool>>, later: seq<nat>)
    requires m == s + DeleteWidth(db, s) && (first.Returned? <==> db.FaultFree(s, s + 2))
    requires DeleteAttempts(db, m, u, rest, later)
    ensures DeleteAttempts(db, s, u, [first] + rest, [s] + later)
  {
    var trace, starts := [first] + rest, [s] + later;
    AttemptEndCons(s, later, u);
    forall k | 0 <= k < |trace|
      ensures starts[k] < AttemptEnd(starts, k, u)
      ensures AttemptEnd(starts, k, u) == starts[k] + DeleteWidth(db, starts[k])
      ensures trace[k].Returned? <==> db.FaultFree(starts[k], starts[k] + 2)
    {
      if k > 0 {
        assert trace[k] == rest[k - 1] && starts[k] == later[k - 1];
      }
    }
  }

  /** The links after a failed attempt of deleteProject, from `t` to `m`,
      and the failed attempts after it, from `m` to `u`: the project's join
      rows are gone exactly when some attempt's link delete got through. */
  lemma LinksDeletedAgain(db: Store, s: nat, later: seq<nat>, t: set<Link>, m: set<Link>, u: set<Link>, id: Id)
    requires m == if db.fault(s).None? then Without(t, id) else t
    requires u == if AnyLinksDeleted(db, later) then Without(m, id) else m
    ensures u == if AnyLinksDeleted(db, [s] + later) then Without(t, id) else t
  {
    var starts := [s] + later;
    assert Without(Without(t, id), id) == Without(t, id);
    var anyLater := AnyLinksDeleted(db, later);
    var any := AnyLinksDeleted(db, starts);
    assert any <==> db.fault(s).None? || anyLater by {
      if anyLater {
        var k :| 0 <= k < |later| && db.fault(later[k]).None?;
        assert starts[k + 1] == later[k];
      }
      if any {
        var k :| 0 <= k < |starts| && db.fault(starts[k]).None?;
        if k > 0 {
          assert starts[k] == later[k - 1];
        }
      }
      assert starts[0] == s;
    }
  }

  /** deleteProject: withRetry around the two deletes, as withRetry's own
      recursion (deleteProject grants MAX_RETRIES). However many attempts
      ran, the tables changed as one attempt may change them (`Deleted`), and
      when its two requests do not fail the first attempt succeeds. */
  method DeleteProject(db: Store, id: Id, retries: nat)
    returns (r: Outcome<bool>, ghost trace: seq<Outcome<bool>>, ghost starts: seq<nat>)
    requires db.Valid()
    modifies db`projects, db`links, db`requests
    ensures db.Valid()
    ensures IsRun(trace, retries) && r == Last(trace)
    ensures old(db.requests) < db.requests <= old(db.requests) + 2 * |trace|
    ensures DeleteAttempts(db, old(db.requests), db.requests, trace, starts)
    ensures Deleted(old(TablesOf(db)), TablesOf(db), id, r)
    ensures r.Threw? ==>
      db.links == if AnyLinksDeleted(db, starts) then Without(old(db.links), id) else old(db.links)
    ensures db.FaultFree(old(db.requests), old(db.requests) + 2) ==> r == Returned(true) && |trace| == 1
    decreases retries
  {
    ghost var t := TablesOf(db);
    r := DeleteProjectOnce(db, id);
    if r.Threw? && retries > 0 {
      ghost var first, m := r, TablesOf(db);
      ghost var rest;
      ghost var later;
      r, rest, later := DeleteProject(db, id, retries - 1);
      DeletedTwice(t, m, TablesOf(db), id, first, r);
      RunCons(first, rest, retries);
      trace, starts := [first] + rest, [t.requests] + later;
      DeleteAttemptsAgain(db, t.requests, m.requests, db.requests, first, rest, later);
      if r.Threw? {
        LinksDeletedAgain(db, t.requests, later, t.links, m.links, db.links, id);
      }
    } else {
      RunOfOne(r, retries);
      trace, starts := [r], [t.requests];
      DeleteAttemptsOne(db, t.requests, db.requests, r);
      if r.Threw? {
        assert AnyLinksDeleted(db, starts) <==> db.fault(starts[0]).None?;
      }
    }
  }

  // ---------------------------------------------------------------------
  // Contact form, statistics, reviews and feedback
  // ---------------------------------------------------------------------

  datatype ContactForm = ContactForm(name: string, email: string, subject: string, message: string)

  datatype SubmitResult = SubmitResult(success: bool, error: Option<string>)

  const TOTAL_CONNECTIONS := "total_connections"

  /** The counter after incrementing `name` by `delta`. */
  function Incremented(stats: map<string, int>, name: string, delta: int): map<string, int>
  {
    stats[name := (if name in stats then stats[name] else 0) + delta]
  }

  /** updatePortfolioStat: one call of the increment procedure whose failure
      is only logged. It never throws, so withRetry runs it exactly once. */
  method UpdatePortfolioStat(db: Store, name: string, delta: int)
    modifies db`stats, db`requests
    ensures db.requests == old(db.requests) + 1
    ensures db.stats == if old(db.Pending()).None? then Incremented(old(db.stats), name, delta) else old(db.stats)
  {
    var _ := db.IncrementStat(name, delta);  // a failure is only logged
  }

  /** submitContactForm: insert an unread connection, then bump
      `total_connections`; any failure is caught and reported as
      `success: false`, so the call never throws and is never retried. The
      increment's own failure is only logged, so a successful submission can
      leave the counter unchanged. */
  method SubmitContactForm(db: Store, form: ContactForm) returns (res: SubmitResult)
    requires db.Valid()
    modifies db`connections, db`nextId, db`stats, db`requests
    ensures db.Valid()
    ensures old(db.Pending()).Some? ==>
      res == SubmitResult(false, Some("Failed to submit form")) &&
      db.connections == old(db.connections) && db.stats == old(db.stats) &&
      db.requests == old(db.requests) + 1
    ensures old(db.Pending()).None? ==>
      res == SubmitResult(true, None) &&
      db.connections == old(db.connections)[old(db.nextId) := Connection(form.name, form.email, form.subject, form.message, Unread)] &&
      db.requests == old(db.requests) + 2 &&
      db.stats == (if db.fault(old(db.requests) + 1).None? then Incremented(old(db.stats), TOTAL_CONNECTIONS, 1) else old(db.stats))
  {
    var error := db.InsertConnection(Connection(form.name, form.email, form.subject, form.message, Unread));
    if error.Some? {
      res := SubmitResult(false, Some("Failed to submit form"));
      return;
    }
    UpdatePortfolioStat(db, TOTAL_CONNECTIONS, 1);
    res := SubmitResult(true, None);
  }

  /** approveReview: one status write whose failure is reported as `false`;
      it never throws, so there is never a retry. */
  method ApproveReview(db: Store, id: Id) returns (ok: bool)
    modifies db`reviews, db`requests
    ensures db.requests == old(db.requests) + 1
    ensures ok <==> old(db.Pending()).None?
    ensures db.reviews == if ok then ReviewWritten(old(db.reviews), id, Approved) else old(db.reviews)
  {
    var error := db.UpdateReviewStatus(id, Approved);
    ok := error.None?;
  }

  /** One invocation of an operation that writes a feedback row and throws
      on failure. */
  method WriteFeedbackOnce(db: Store, id: Id, status: FeedbackStatus, reply: Option<string>, context: string)
    returns (r: Outcome<bool>)
    modifies db`feedback, db`requests
    ensures db.requests == old(db.requests) + 1
    ensures old(db.Pending()).Some? ==>
      r == Threw(context + old(db.Pending()).value.message) && db.feedback == old(db.feedback)
    ensures old(db.Pending()).None? ==>
      r == Returned(true) && db.feedback == FeedbackWritten(old(db.feedback), id, status, reply)
  {
    var error := db.UpdateFeedback(id, status, reply);
    if error.Some? {
      r := Threw(context + error.value.message);
    } else {
      r := Returned(true);
    }
  }

  /** A feedback write with the throw convention, wrapped in withRetry (as
      its own recursion): the row is written once an attempt gets through,
      and untouched when every attempt fails. */
  method WriteFeedback(db: Store, id: Id, status: FeedbackStatus, reply: Option<string>, context: string, retries: nat)
    returns (r: Outcome<bool>, ghost trace: seq<Outcome<bool>>)
    modifies db`feedback, db`requests
    ensures IsRun(trace, retries) && r == Last(trace)
    ensures db.requests == old(db.requests) + |trace|
    ensures forall k :: 0 <= k < |trace| ==> (trace[k].Threw? <==> db.fault(old(db.requests) + k).Some?)
    ensures r.Returned? ==> r.value && db.feedback == FeedbackWritten(old(db.feedback), id, status, reply)
    ensures r.Threw? ==>
      db.feedback == old(db.feedback) && |trace| == retries + 1 &&
      r == Threw(context + db.fault(db.requests - 1).value.message)
    ensures db.FaultFree(old(db.requests), old(db.requests) + 1) ==> r == Returned(true) && |trace| == 1
    decreases retries
  {
    r := WriteFeedbackOnce(db, id, status, reply, context);
    if r.Threw? && retries > 0 {
      ghost var first := r;
      ghost var rest;
      r, rest := WriteFeedback(db, id, status, reply, context, retries - 1);
      RunCons(first, rest, retries);
      trace := [first] + rest;
      forall k | 0 <= k < |trace| ensures trace[k].Threw? <==> db.fault(old(db.requests) + k).Some? {
        if k > 0 {
          assert trace[k] == rest[k - 1];
        }
      }
    } else {
      RunOfOne(r, retries);
      trace := [r];
    }
  }

  /** updateFeedbackStatus with the {read, unread, replied} vocabulary. */
  method UpdateFeedbackStatus(db: Store, id: Id, status: FeedbackStatus) returns (r: Outcome<bool>, ghost trace: seq<Outcome<bool>>)
    requires status == FeedbackRead || status == FeedbackUnread || status == FeedbackReplied
    modifies db`feedback, db`requests
    ensures IsRun(trace, MAX_RETRIES) && r == Last(trace)
    ensures db.requests == old(db.requests) + |trace|
    ensures forall k :: 0 <= k < |trace| ==> (trace[k].Threw? <==> db.fault(old(db.requests) + k).Some?)
    ensures r.Returned? ==> r.value && db.feedback == FeedbackWritten(old(db.feedback), id, status, None)
    ensures r.Threw? ==> db.feedback == old(db.feedback) && |trace| == MAX_RETRIES + 1
    ensures db.FaultFree(old(db.requests), old(db.requests) + 1) ==> r == Returned(true) && |trace| == 1
  {
    r, trace := WriteFeedback(db, id, status, None, "Error updating feedback status: ", MAX_RETRIES);
  }

  /** replyToFeedback: the reply message and the status "replied" in one
      update of the one row. */
  method ReplyToFeedback(db: Store, id: Id, replyMessage: string) returns (r: Outcome<bool>, ghost trace: seq<Outcome<bool>>)
    modifies db`feedback, db`requests
    ensures IsRun(trace, MAX_RETRIES) && r == Last(trace)
    ensures db.requests == old(db.requests) + |trace|
    ensures forall k :: 0 <= k < |trace| ==> (trace[k].Threw? <==> db.fault(old(db.requests) + k).Some?)
    ensures r.Returned? ==> r.value && db.feedback == FeedbackWritten(old(db.feedback), id, FeedbackReplied, Some(replyMessage))
    ensures r.Threw? ==> db.feedback == old(db.feedback) && |trace| == MAX_RETRIES + 1
    ensures db.FaultFree(old(db.requests), old(db.requests) + 1) ==> r == Returned(true) && |trace| == 1
  {
    r, trace := WriteFeedback(db, id, FeedbackReplied, Some(replyMessage), "Error replying to feedback: ", MAX_RETRIES);
  }

  /** One invocation of the operation deleteFeedback wraps. */
  method DeleteFeedbackOnce(db: Store, id: Id) returns (r: Outcome<bool>)
    modifies db`feedback, db`requests
    ensures db.requests == old(db.requests) + 1
    ensures old(db.Pending()).Some? ==>
      r == Threw("Error deleting feedback: " + old(db.Pending()).value.message) && db.feedback == old(db.feedback)
    ensures old(db.Pending()).None? ==> r == Returned(true) && db.feedback == old(db.feedback) - {id}
  {
    var error := db.DeleteFeedback(id);
    if error.Some? {
      r := Threw("Error deleting feedback: " + error.value.message);
    } else {
      r := Returned(true);
    }
  }

  /** deleteFeedback with the throw convention, wrapped in withRetry (as its
      own recursion; deleteFeedback grants MAX_RETRIES): retried until the
      delete gets through or every attempt has failed. */
  method DeleteFeedback(db: Store, id: Id, retries: nat) returns (r: Outcome<bool>, ghost trace: seq<Outcome<bool>>)
    modifies db`feedback, db`requests
    ensures IsRun(trace, retries) && r == Last(trace)
    ensures db.requests == old(db.requests) + |trace|
    ensures forall k :: 0 <= k < |trace| ==> (trace[k].Threw? <==> db.fault(old(db.requests) + k).Some?)
    ensures r.Returned? ==> r.value && db.feedback == old(db.feedback) - {id}
    ensures r.Threw? ==> db.feedback == old(db.feedback) && |trace| == retries + 1
    decreases retries
  {
    r := DeleteFeedbackOnce(db, id);
    if r.Threw? && retries > 0 {
      ghost var first := r;
      ghost var rest;
      r, rest := DeleteFeedback(db, id, retries - 1);
      RunCons(first, rest, retries);
      trace := [first] + rest;
      forall k | 0 <= k < |trace| ensures trace[k].Threw? <==> db.fault(old(db.requests) + k).Some? {
        if k > 0 {
          assert trace[k] == rest[k - 1];
        }
      }
    } else {
      RunOfOne(r, retries);
      trace := [r];
    }
  }
}
