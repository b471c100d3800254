/** Rows of the tables the data-access layer reads and writes. Identifiers
    are opaque and minted by the store; creation and update timestamps are
    not modelled. */
module Rows {

  datatype Option<T> = None | Some(value: T)

  type Id = nat

  /** The columns of a `projects` row other than its id. */
  datatype ProjectFields = ProjectFields(
    title: string,
    description: string,
    imageUrl: string,
    projectUrl: string,
    githubUrl: string,
    isFeatured: bool,
    sortOrder: int)

  /** A `projects` row as the store returns it. */
  datatype Project = Project(id: Id, fields: ProjectFields)

  /** A partial update of a project: only the columns given are written. */
  datatype ProjectPatch = ProjectPatch(
    title: Option<string>,
    description: Option<string>,
    imageUrl: Option<string>,
    projectUrl: Option<string>,
    githubUrl: Option<string>,
    isFeatured: Option<bool>,
    sortOrder: Option<int>)

  const NoChanges := ProjectPatch(None, None, None, None, None, None, None)

  function Or<T>(given: Option<T>, current: T): T
  {
    if given.Some? then given.value else current
  }

  /** The row after `update(patch)`: given columns replaced, others kept. */
  function Patched(f: ProjectFields, p: ProjectPatch): ProjectFields
  {
    ProjectFields(
      Or(p.title, f.title),
      Or(p.description, f.description),
      Or(p.imageUrl, f.imageUrl),
      Or(p.projectUrl, f.projectUrl),
      Or(p.githubUrl, f.githubUrl),
      Or(p.isFeatured, f.isFeatured),
      Or(p.sortOrder, f.sortOrder))
  }

  /** Writing the same patch a second time changes nothing: a retried update
      whose row write already took effect leaves the row as one write would. */
  lemma PatchIdempotent(f: ProjectFields, p: ProjectPatch)
    ensures Patched(Patched(f, p), p) == Patched(f, p)
  {
  }

  /** An update that names no column leaves the row as it was. */
  lemma EmptyPatchKeepsRow(f: ProjectFields)
    ensures Patched(f, NoChanges) == f
  {
  }

  /** A `project_technologies` join row. */
  datatype Link = Link(project: Id, technology: Id)

  /** A `technologies` row; its category may be missing or empty. */
  datatype Technology = Technology(id: Id, name: string, iconName: Option<string>, category: Option<string>)

  /** A project together with the technologies linked to it. */
  datatype ProjectWithTechnologies = ProjectWithTechnologies(project: Project, technologies: set<Technology>)

  /** A `fun_facts` row. */
  datatype FunFact = FunFact(id: Id, fact: string, category: string, categoryIconName: string, sortOrder: int)

  /** A `portfolio_stats` row. */
  datatype PortfolioStat = PortfolioStat(metricName: string, metricValue: int)

  /** A `profiles` row. */
  datatype Profile = Profile(id: Id, fullName: string, headline: string, bio: string)

  /** A contact-form submission (`connections` row). */
  datatype ConnectionStatus = Unread | Read | Replied
  datatype Connection = Connection(name: string, email: string, subject: string, message: string, status: ConnectionStatus)

  datatype ReviewStatus = Pending | Approved | Rejected
  datatype Review = Review(name: string, role: string, content: string, status: ReviewStatus)

  /** Both status vocabularies that the two query files write to `feedback`:
      {read, unread, replied} and {read, spam, archived}. */
  datatype FeedbackStatus = FeedbackUnread | FeedbackRead | FeedbackReplied | Spam | Archived
  datatype Feedback = Feedback(content: string, status: FeedbackStatus, replyMessage: Option<string>)
}
