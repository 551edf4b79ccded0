/**
 * The admin project list: the search box and deletion with confirmation.
 * Remote calls are parameters; the deletes sent to the database are logged.
 */
module ProjectCatalog {
  import opened Wrappers
  import opened Text
  import opened Lists

  type Id = string

  /** A project row as the list shows it. */
  datatype ProjectRow = ProjectRow(
    id: Id,
    title: string,
    sponsor: Option<string>,
    bannerUrl: Option<string>,
    createdAt: int)

  /** Outcome of the list query: rows (possibly `null`) or an error. */
  datatype ListFetch = ListOk(data: Option<seq<ProjectRow>>) | ListError

  /** The search box: the lower-cased term occurs in the lower-cased title, or in
      the lower-cased sponsor when there is one. */
  predicate ProjectMatches(p: ProjectRow, term: string)
    ensures term == "" ==> ProjectMatches(p, term)
  {
    var t := Lower(term);
    EmptyIsSubstring(Lower(p.title));
    IsSubstring(t, Lower(p.title)) || (p.sponsor.Some? && IsSubstring(t, Lower(p.sponsor.value)))
  }

  /** `filteredProjects`: an order-preserving subsequence holding exactly the rows
      that match the search. */
  function FilteredProjects(projects: seq<ProjectRow>, term: string): (r: seq<ProjectRow>)
    ensures IsSubsequence(r, projects)
    ensures forall i :: 0 <= i < |r| ==> r[i] in projects && ProjectMatches(r[i], term)
    ensures forall i :: 0 <= i < |projects| && ProjectMatches(projects[i], term) ==> projects[i] in r
    ensures multiset(r) <= multiset(projects)
    ensures forall i :: 0 <= i < |projects| && ProjectMatches(projects[i], term) ==>
              multiset(r)[projects[i]] == multiset(projects)[projects[i]]
  {
    Filter(projects, (p: ProjectRow) => ProjectMatches(p, term))
  }

  /** An empty search shows every project. */
  lemma {:induction false} EmptySearchShowsAll(projects: seq<ProjectRow>)
    ensures FilteredProjects(projects, "") == projects
  {
    forall i | 0 <= i < |projects| ensures ProjectMatches(projects[i], "") {
      EmptyIsSubstring(Lower(projects[i].title));
    }
    FilterKeepsAll(projects, (p: ProjectRow) => ProjectMatches(p, ""));
  }

  /** The search ignores ASCII case: a term and its lower-cased form select the
      same rows. */
  lemma SearchIgnoresCase(projects: seq<ProjectRow>, term: string)
    ensures FilteredProjects(projects, Lower(term)) == FilteredProjects(projects, term)
  {
    LowerIdempotent(term);
    FilterAgrees(projects, (p: ProjectRow) => ProjectMatches(p, Lower(term)), (p: ProjectRow) => ProjectMatches(p, term));
  }

  /** `projects.filter(p => p.id !== id)`: every other row, in order. */
  function RemoveProject(projects: seq<ProjectRow>, id: Id): (r: seq<ProjectRow>)
    ensures IsSubsequence(r, projects)
    ensures forall i :: 0 <= i < |r| ==> r[i] in projects && r[i].id != id
    ensures forall i :: 0 <= i < |projects| && projects[i].id != id ==> projects[i] in r
    ensures multiset(r) <= multiset(projects)
    ensures forall i :: 0 <= i < |projects| && projects[i].id != id ==> multiset(r)[projects[i]] == multiset(projects)[projects[i]]
  {
    Filter(projects, (p: ProjectRow) => p.id != id)
  }

  class ProjectListPage {
    var projects: seq<ProjectRow>
    var searchTerm: string
    /** Ids sent to the database's delete, in order. */
    ghost var remoteDeletes: seq<Id>

    constructor ()
      ensures projects == [] && searchTerm == "" && remoteDeletes == []
    {
      projects, searchTerm := [], "";
      remoteDeletes := [];
    }

    /** The rows as displayed. */
    function Visible(): (r: seq<ProjectRow>)
      reads this
      ensures IsSubsequence(r, projects)
      ensures forall i :: 0 <= i < |r| ==> ProjectMatches(r[i], searchTerm)
      ensures forall i :: 0 <= i < |projects| && ProjectMatches(projects[i], searchTerm) ==>
                multiset(r)[projects[i]] == multiset(projects)[projects[i]]
      ensures multiset(r) <= multiset(projects)
    {
      FilteredProjects(projects, searchTerm)
    }

    method SetSearchTerm(term: string)
      modifies this`searchTerm
      ensures searchTerm == term
    {
      searchTerm := term;
    }

    /** `fetchProjects`: replace the rows on success (`data || []`), keep them on
        error. */
    method FetchProjects(result: ListFetch)
      modifies this`projects
      ensures result.ListOk? ==> projects == result.data.GetOr([])
      ensures result.ListError? ==> projects == old(projects)
    {
      if result.ListOk? {
        projects := result.data.GetOr([]);
      }
    }

    /** `handleDelete(id)`: a declined confirmation sends nothing and changes
        nothing; otherwise one delete is sent, and only when it succeeds do the rows
        with that id leave the list. */
    method HandleDelete(id: Id, confirmed: bool, ok: bool)
      modifies this`projects, this`remoteDeletes
      ensures !confirmed ==> projects == old(projects) && remoteDeletes == old(remoteDeletes)
      ensures confirmed ==> remoteDeletes == old(remoteDeletes) + [id]
      ensures confirmed && ok ==> projects == RemoveProject(old(projects), id)
      ensures confirmed && !ok ==> projects == old(projects)
    {
      if !confirmed {
        return;
      }
      remoteDeletes := remoteDeletes + [id];
      if ok {
        projects := RemoveProject(projects, id);
      }
    }
  }
}
