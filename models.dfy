/** The request record shared by the HTTP layer and both services, with its validation. */
module Models {
  import opened Wrappers
  import Text

  /** The actions `Validate` knows, after lower-casing. */
  predicate NeedsFileAndDir(action: string) {
    Text.ToLower(action) == "archive" || Text.ToLower(action) == "extract"
  }

  predicate IsGet(action: string) {
    Text.ToLower(action) == "get"
  }

  /**
   * A request. The services fill in `id` and `status` in place, so it is an
   * object; `createdOn` is the storage timestamp.
   */
  class Request {
    var id: string
    var file: string
    var dir: string
    var status: string
    var filteredNames: string
    var aligorithm: string
    var partialExtraction: string
    var background: bool
    var createdOn: int

    /** The zero request, `models.Request{}`. */
    constructor ()
      ensures id == "" && file == "" && dir == "" && status == ""
      ensures filteredNames == "" && aligorithm == "" && partialExtraction == ""
      ensures !background && createdOn == 0
    {
      id, file, dir, status := "", "", "", "";
      filteredNames, aligorithm, partialExtraction := "", "", "";
      background, createdOn := false, 0;
    }

    /**
     * `Request.Validate(action)`: `None` for a valid request, otherwise the
     * error text. "archive" and "extract" need `file` and then `dir`; "get"
     * needs `id`; the action is compared after lower-casing.
     */
    function Validate(action: string): (err: Option<string>)
      reads this
      ensures err.None? <==>
        (NeedsFileAndDir(action) && file != "" && dir != "") || (IsGet(action) && id != "")
      ensures err == Some("invalid validation operation") <==> !NeedsFileAndDir(action) && !IsGet(action)
    {
      var kind := Text.ToLower(action);
      if kind == "archive" || kind == "extract" then
        if file == "" then Some("file is required")
        else if dir == "" then Some("dir is required")
        else None
      else if kind == "get" then
        if id == "" then Some("id is required") else None
      else Some("invalid validation operation")
    }

    /** `Request.PrepareOutput(request)`: copies `id` and `status`, and nothing else. */
    method PrepareOutput(request: Request)
      modifies this
      ensures id == old(request.id) && status == old(request.status)
      ensures file == old(file) && dir == old(dir) && filteredNames == old(filteredNames)
      ensures aligorithm == old(aligorithm) && partialExtraction == old(partialExtraction)
      ensures background == old(background) && createdOn == old(createdOn)
    {
      id := request.id;
      status := request.status;
    }
  }

  /** For "archive" and "extract", a missing `file` is reported first, whatever `dir` holds. */
  lemma FileCheckedBeforeDir(r: Request, action: string)
    requires NeedsFileAndDir(action)
    ensures r.file == "" ==> r.Validate(action) == Some("file is required")
    ensures r.file != "" && r.dir == "" ==> r.Validate(action) == Some("dir is required")
    ensures r.file != "" && r.dir != "" ==> r.Validate(action) == None
  {
    assert Text.ToLower(action) == "archive" || Text.ToLower(action) == "extract";
  }

  /** For "get" only `id` matters: requests that agree on `id` validate alike. */
  lemma GetChecksOnlyId(r1: Request, r2: Request, action: string)
    requires IsGet(action) && r1.id == r2.id
    ensures r1.Validate(action) == r2.Validate(action)
    ensures r1.Validate(action) == (if r1.id == "" then Some("id is required") else None)
  {
    assert Text.ToLower(action) == "get";
  }

  /** The action is matched case-insensitively: lower-casing it first changes nothing. */
  lemma ValidateIgnoresCase(r: Request, action: string)
    ensures r.Validate(Text.ToLower(action)) == r.Validate(action)
  {
    Text.ToLowerIdempotent(action);
  }

  /** Upper-case spellings of the actions are accepted. */
  lemma UpperCaseActions(r: Request)
    requires r.file != "" && r.dir != ""
    ensures r.Validate("ARCHIVE") == None && r.Validate("Extract") == None
  {
    Text.LowersTo("ARCHIVE", "archive");
    Text.LowersTo("Extract", "extract");
  }
}
