/**
 * The extract service: records an extract job in the `extract` table, then
 * (unless the job runs in the background) extracts the archive, marking the
 * job "done" only when the extraction succeeds.
 */
module ExtractServices {
  import opened Wrappers
  import opened Io
  import Models
  import Store
  import Extraction

  /** The row `insertRecordToDB` writes for an extract job. */
  function NewRow(id: string, file: string, dir: string, aligorithm: string, filteredNames: string,
                  partialExtraction: string, background: bool, now: int): (row: Store.Row)
    ensures row.id == id && row.status == "new" && row.partialExtraction == partialExtraction
    ensures row.fileName == file && row.dir == dir && row.createdOn == now
  {
    Store.Row(id, file, dir, "new", aligorithm, filteredNames, partialExtraction, background, now)
  }

  class ExtractService {
    const database: Store.Table

    /** `ExtractService.Init`: the service works on the given table. */
    constructor Init(db: Store.Table)
      ensures database == db
    {
      database := db;
    }

    /**
     * `insertRecordToDB`: gives the request the new `id` and status "new",
     * then inserts its row; the request keeps both even when the insert fails.
     */
    method InsertRecordToDB(req: Models.Request, id: string, now: int) returns (err: Option<Error>)
      requires database.Valid()
      modifies req, database
      ensures database.Valid()
      ensures req.id == id && req.status == "new"
      ensures unchanged(req`file, req`dir, req`filteredNames, req`aligorithm, req`partialExtraction, req`background, req`createdOn)
      ensures err.None? <==> id !in old(database.rows)
      ensures err.Some? ==> err.value == InsertFailed("extract") && database.rows == old(database.rows)
      ensures err.None? ==>
        database.rows == old(database.rows)[id := NewRow(id, req.file, req.dir, req.aligorithm, req.filteredNames,
                                                         req.partialExtraction, req.background, now)]
    {
      req.id := id;
      req.status := "new";
      var row := Store.Row(req.id, req.file, req.dir, req.status, req.aligorithm, req.filteredNames,
                           req.partialExtraction, req.background, 0);
      var inserted := database.Insert(row, now);
      if !inserted {
        return Some(InsertFailed("extract"));
      }
      return None;
    }

    /** `updateStatus`: writes `req.status` into the job's row; fails when no row has `req.id`. */
    method UpdateStatus(req: Models.Request) returns (err: Option<Error>)
      requires database.Valid()
      modifies database
      ensures database.Valid()
      ensures err.None? <==> req.id in old(database.rows)
      ensures err.Some? ==> err.value == UpdateFailed("extract")
      ensures database.rows == Store.WithStatus(old(database.rows), req.id, req.status)
    {
      var updated := database.Update(req.id, req.status);
      if !updated {
        return Some(UpdateFailed("extract"));
      }
      return None;
    }

    /**
     * `GetStatus`: a fresh request holding the row's id, file name, directory,
     * status and creation time; for an unknown id, the zero request.
     */
    method GetStatus(id: string) returns (result: Models.Request)
      requires database.Valid()
      ensures fresh(result)
      ensures id in database.rows ==>
        var row := database.rows[id];
        result.id == id && result.file == row.fileName && result.dir == row.dir
        && result.status == row.status && result.createdOn == row.createdOn
      ensures id !in database.rows ==>
        result.id == "" && result.file == "" && result.dir == "" && result.status == "" && result.createdOn == 0
      ensures result.filteredNames == "" && result.aligorithm == "" && result.partialExtraction == ""
      ensures !result.background
    {
      var row := database.Select(id);
      result := new Models.Request();
      if row.Some? {
        result.id, result.file, result.dir := row.value.id, row.value.fileName, row.value.dir;
        result.status, result.createdOn := row.value.status, row.value.createdOn;
      }
    }

    /**
     * `InitiateExtract`: runs `extractFiles`; on its error returns it and
     * leaves status and table alone. Otherwise sets `req.status` to "done"
     * before updating the row, so the request says "done" even when the
     * update fails. `runErr` is the error of `extractFiles`.
     */
    method InitiateExtract(req: Models.Request, env: ExtractEnv)
      returns (effects: seq<Extraction.Effect>, err: Option<Error>, ghost runErr: Option<Error>)
      requires database.Valid()
      modifies req, database
      ensures database.Valid()
      ensures unchanged(req`id, req`file, req`dir, req`filteredNames, req`aligorithm, req`partialExtraction, req`background, req`createdOn)
      ensures (effects, runErr) == Extraction.Extract(req.dir, req.file, req.filteredNames, req.partialExtraction, env)
      ensures runErr.Some? ==>
        err == runErr && req.status == old(req.status) && database.rows == old(database.rows)
      ensures runErr.None? ==>
        && req.status == "done"
        && database.rows == Store.WithStatus(old(database.rows), req.id, "done")
        && (err.None? <==> req.id in old(database.rows))
        && (err.Some? ==> err.value == UpdateFailed("extract"))
    {
      var extractErr;
      effects, extractErr := Extraction.ExtractFiles(req.dir, req.file, req.filteredNames, req.partialExtraction, env);
      runErr := extractErr;
      if extractErr.Some? {
        return effects, extractErr, runErr;
      }
      req.status := "done";
      err := UpdateStatus(req);
    }

    /**
     * `CreateExtract`: records the job under the fresh `id`; a background job
     * stops there with status "new", any other runs at once. A job that runs
     * and succeeds leaves its row "done"; one that fails leaves it "new".
     */
    method CreateExtract(req: Models.Request, id: string, now: int, env: ExtractEnv)
      returns (effects: seq<Extraction.Effect>, err: Option<Error>, ghost runErr: Option<Error>)
      requires database.Valid()
      modifies req, database
      ensures database.Valid()
      ensures req.id == id
      ensures unchanged(req`file, req`dir, req`filteredNames, req`aligorithm, req`partialExtraction, req`background, req`createdOn)
      ensures id in old(database.rows) ==>
        effects == [] && err == Some(InsertFailed("extract")) && req.status == "new"
        && database.rows == old(database.rows)
      ensures id !in old(database.rows) && req.background ==>
        effects == [] && err == None && req.status == "new"
        && database.rows == old(database.rows)[id := NewRow(id, req.file, req.dir, req.aligorithm, req.filteredNames,
                                                            req.partialExtraction, true, now)]
      ensures id !in old(database.rows) && !req.background ==>
        && (effects, runErr) == Extraction.Extract(req.dir, req.file, req.filteredNames, req.partialExtraction, env)
        && err == runErr
        && req.status == (if runErr.None? then "done" else "new")
        && database.rows == old(database.rows)[id := NewRow(id, req.file, req.dir, req.aligorithm, req.filteredNames,
                                                            req.partialExtraction, false, now).(status := req.status)]
    {
      runErr := None;
      err := InsertRecordToDB(req, id, now);
      if err.Some? {
        return [], err, runErr;
      }
      if req.background {
        return [], None, runErr;
      }
      ghost var row := NewRow(id, req.file, req.dir, req.aligorithm, req.filteredNames, req.partialExtraction, false, now);
      effects, err, runErr := InitiateExtract(req, env);
      Store.WithStatusOfInserted(old(database.rows), id, row, "done");
    }
  }
}
