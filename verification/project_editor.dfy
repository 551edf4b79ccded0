/**
 * The admin project form: loading a project into the fields, the two list
 * editors (services delivered and results), removing the banner, and saving.
 * Remote calls are parameters; the writes sent to the database are logged.
 */
module ProjectEditor {
  import opened Wrappers
  import opened Text
  import opened Lists

  /** The fields the form edits and saves. */
  datatype ProjectData = ProjectData(
    title: string,
    sponsor: string,
    bannerUrl: string,
    summary: string,
    services: seq<string>,
    results: seq<string>)

  /** A stored project row; every field but the title may be missing. */
  datatype ProjectRecord = ProjectRecord(
    title: string,
    sponsor: Option<string>,
    bannerUrl: Option<string>,
    summary: Option<string>,
    services: Option<seq<string>>,
    results: Option<seq<string>>)

  /** Outcome of the single-row query: an error, or the row (possibly `null`). */
  datatype ProjectFetch = FetchError | FetchOk(data: Option<ProjectRecord>)

  /** A write sent to the database on save. */
  datatype ProjectWrite = Update(id: string, data: ProjectData) | Insert(data: ProjectData)

  /** The form fields for a loaded row: missing sponsor, banner and summary become
      `""`, missing lists become `[]`, present values are taken as they are. */
  function WithDefaults(rec: ProjectRecord): (d: ProjectData)
    ensures d.title == rec.title
    ensures rec.sponsor.None? ==> d.sponsor == ""
    ensures rec.bannerUrl.None? ==> d.bannerUrl == ""
    ensures rec.summary.None? ==> d.summary == ""
    ensures rec.services.None? ==> d.services == []
    ensures rec.results.None? ==> d.results == []
    ensures rec.sponsor.Some? ==> d.sponsor == rec.sponsor.value
    ensures rec.services.Some? ==> d.services == rec.services.value
    ensures rec.bannerUrl.Some? ==> d.bannerUrl == rec.bannerUrl.value
    ensures rec.summary.Some? ==> d.summary == rec.summary.value
    ensures rec.results.Some? ==> d.results == rec.results.value
  {
    ProjectData(
      rec.title,
      rec.sponsor.GetOr(""),
      rec.bannerUrl.GetOr(""),
      rec.summary.GetOr(""),
      rec.services.GetOr([]),
      rec.results.GetOr([]))
  }

  /** The row a save stores: every field present. */
  function Stored(d: ProjectData): ProjectRecord {
    ProjectRecord(d.title, Some(d.sponsor), Some(d.bannerUrl), Some(d.summary), Some(d.services), Some(d.results))
  }

  /** Saving the form and loading the row back gives the same fields. */
  lemma LoadAfterSave(d: ProjectData)
    ensures WithDefaults(Stored(d)) == d
  {
  }

  /** The add button of a list editor, on (list, input): an input that is not
      blank is trimmed and appended and the input cleared; a blank input leaves
      both as they are. */
  function AddEntry(list: seq<string>, input: string): (r: (seq<string>, string))
    ensures !IsBlank(input) ==> r.0 == list + [Trim(input)] && r.1 == ""
    ensures IsBlank(input) ==> r == (list, input)
  {
    var entry := Trim(input);
    if entry != "" then (list + [entry], "") else (list, input)
  }

  /** Every entry the add button appends is non-empty, trimmed, and stays as it is
      when trimmed again. */
  lemma AddedEntryIsTrimmed(list: seq<string>, input: string)
    requires !IsBlank(input)
    ensures var e := AddEntry(list, input).0[|list|];
            e != "" && !IsWhitespace(e[0]) && !IsWhitespace(e[|e| - 1]) && Trim(e) == e
  {
    var e := Trim(input);
    assert AddEntry(list, input).0[|list|] == e;
    TrimIdempotent(input);
  }

  /** The remove button of the last entry undoes the add button. */
  lemma RemoveUndoesAdd(list: seq<string>, input: string)
    ensures RemoveIndex(AddEntry(list, input).0, |list|) == list
  {
    var after := AddEntry(list, input).0;
    if !IsBlank(input) {
      assert after[..|list|] == list;
    }
  }

  /** `!!id`: a route id that is present and not empty. */
  predicate IsEditingId(routeId: Option<string>)
    ensures IsEditingId(routeId) <==> routeId != None && routeId != Some("")
  {
    routeId.Some? && routeId.value != ""
  }

  class ProjectFormPage {
    /** The `:id` route parameter; absent for a new project. */
    const routeId: Option<string>
    var title: string
    var sponsor: string
    var bannerUrl: string
    var summary: string
    var services: seq<string>
    var results: seq<string>
    var newService: string
    var newResult: string
    /** Whether the page has navigated back to the project list. */
    var leftForm: bool
    /** Writes sent to the database, in order. */
    ghost var writes: seq<ProjectWrite>

    constructor (routeId: Option<string>)
      ensures this.routeId == routeId
      ensures title == "" && sponsor == "" && bannerUrl == "" && summary == ""
      ensures services == [] && results == [] && newService == "" && newResult == ""
      ensures !leftForm && writes == []
    {
      this.routeId := routeId;
      title, sponsor, bannerUrl, summary := "", "", "", "";
      services, results, newService, newResult := [], [], "", "";
      leftForm := false;
      writes := [];
    }

    predicate IsEditing() {
      IsEditingId(routeId)
    }

    /** The fields as they will be saved. */
    function Payload(): ProjectData
      reads this
    {
      ProjectData(title, sponsor, bannerUrl, summary, services, results)
    }

    /** `fetchProject`, run on mount when editing: an error leaves the form, a row
        fills the fields with defaults, no row changes nothing. The inputs for new
        entries are untouched. */
    method FetchProject(result: ProjectFetch)
      requires IsEditing()
      modifies this`title, this`sponsor, this`bannerUrl, this`summary, this`services, this`results, this`leftForm
      ensures result.FetchError? ==> leftForm && Payload() == old(Payload())
      ensures result.FetchOk? && result.data.Some? ==> Payload() == WithDefaults(result.data.value) && leftForm == old(leftForm)
      ensures result.FetchOk? && result.data.None? ==> Payload() == old(Payload()) && leftForm == old(leftForm)
    {
      if result.FetchError? {
        leftForm := true;
      } else if result.data.Some? {
        var d := WithDefaults(result.data.value);
        title, sponsor, bannerUrl, summary := d.title, d.sponsor, d.bannerUrl, d.summary;
        services, results := d.services, d.results;
      }
    }

    /** Typing in the new-service input. */
    method SetNewService(s: string)
      modifies this`newService
      ensures newService == s
    {
      newService := s;
    }

    /** Typing in the new-result input. */
    method SetNewResult(s: string)
      modifies this`newResult
      ensures newResult == s
    {
      newResult := s;
    }

    /** `handleAddService` (the add button or Enter in the input). */
    method AddService()
      modifies this`services, this`newService
      ensures (services, newService) == AddEntry(old(services), old(newService))
    {
      services, newService := AddEntry(services, newService).0, AddEntry(services, newService).1;
    }

    /** `handleRemoveService(index)`. */
    method RemoveService(index: int)
      modifies this`services
      ensures services == RemoveIndex(old(services), index)
    {
      services := RemoveIndex(services, index);
    }

    /** `handleAddResult` (the add button or Enter in the input). */
    method AddResult()
      modifies this`results, this`newResult
      ensures (results, newResult) == AddEntry(old(results), old(newResult))
    {
      results, newResult := AddEntry(results, newResult).0, AddEntry(results, newResult).1;
    }

    /** `handleRemoveResult(index)`. */
    method RemoveResult(index: int)
      modifies this`results
      ensures results == RemoveIndex(old(results), index)
    {
      results := RemoveIndex(results, index);
    }

    /** `removeImage`: clears the banner and nothing else. */
    method RemoveImage()
      modifies this`bannerUrl
      ensures bannerUrl == ""
    {
      bannerUrl := "";
    }

    /** `handleSubmit`: an update of the routed id when editing, an insert
        otherwise, carrying the current fields; the page leaves the form only
        when the write reports no error. The title input is `required`, so the
        browser submits only with a non-empty title. */
    method Submit(ok: bool)
      requires title != ""
      modifies this`writes, this`leftForm
      ensures IsEditing() ==> writes == old(writes) + [Update(routeId.value, ProjectData(title, sponsor, bannerUrl, summary, services, results))]
      ensures !IsEditing() ==> writes == old(writes) + [Insert(ProjectData(title, sponsor, bannerUrl, summary, services, results))]
      ensures leftForm == (old(leftForm) || ok)
    {
      if IsEditing() {
        writes := writes + [Update(routeId.value, Payload())];
      } else {
        writes := writes + [Insert(Payload())];
      }
      if ok {
        leftForm := true;
      }
    }
  }
}
