/**
 * The archive service: records an archive job in the `archive` table, then
 * (unless the job runs in the background) selects the files and compresses
 * them, marking the job "done" only when both steps succeed.
 */
module ArchiveServices {
  import opened Wrappers
  import opened Io
  import Models
  import Store
  import ArchiveSelection
  import Compress

  /** The row `insertRecordToDB` writes for a job (the archive table has no partial-extraction column). */
  function NewRow(id: string, file: string, dir: string, aligorithm: string, filteredNames: string,
                  background: bool, now: int): (row: Store.Row)
    ensures row.id == id && row.status == "new" && row.partialExtraction == ""
    ensures row.fileName == file && row.dir == dir && row.createdOn == now
  {
    Store.Row(id, file, dir, "new", aligorithm, filteredNames, "", background, now)
  }

  /**
   * The outcomes `archiveFiles` may have for a job: a listing failure, or a
   * selection `getListOfFileNames` may return followed by `compress` of it.
   */
  ghost predicate Archived(dir: string, file: string, filteredNames: string, env: ArchiveEnv,
                           zip: Option<seq<ZipEntry>>, err: Option<Error>)
  {
    if dir !in env.listings then zip == None && err == Some(ReadDirFailed(dir))
    else exists names :: ArchiveSelection.IsSelection(env.listings[dir], filteredNames, file, names)
                      && Compress.Compressed(names, dir, file, env, zip, err)
  }

  class ArchiveService {
    const database: Store.Table

    /** `ArchiveService.Init`: the service works on the given table. */
    constructor Init(db: Store.Table)
      ensures database == db
    {
      database := db;
    }

    /**
     * `insertRecordToDB`: gives the request the new `id` and status "new",
     * then inserts its row; the request keeps both even when the insert fails.
     */
    method InsertRecordToDB(req: Models.Request, id: string, now: int) returns (err: Option<Error>)
      requires database.Valid()
      modifies req, database
      ensures database.Valid()
      ensures req.id == id && req.status == "new"
      ensures unchanged(req`file, req`dir, req`filteredNames, req`aligorithm, req`partialExtraction, req`background, req`createdOn)
      ensures err.None? <==> id !in old(database.rows)
      ensures err.Some? ==> err.value == InsertFailed("archive") && database.rows == old(database.rows)
      ensures err.None? ==>
        database.rows == old(database.rows)[id := NewRow(id, req.file, req.dir, req.aligorithm, req.filteredNames, req.background, now)]
    {
      req.id := id;
      req.status := "new";
      var row := Store.Row(req.id, req.file, req.dir, req.status, req.aligorithm, req.filteredNames, "", req.background, 0);
      var inserted := database.Insert(row, now);
      if !inserted {
        return Some(InsertFailed("archive"));
      }
      return None;
    }

    /** `updateStatus`: writes `req.status` into the job's row; fails when no row has `req.id`. */
    method UpdateStatus(req: Models.Request) returns (err: Option<Error>)
      requires database.Valid()
      modifies database
      ensures database.Valid()
      ensures err.None? <==> req.id in old(database.rows)
      ensures err.Some? ==> err.value == UpdateFailed("archive")
      ensures database.rows == Store.WithStatus(old(database.rows), req.id, req.status)
    {
      var updated := database.Update(req.id, req.status);
      if !updated {
        return Some(UpdateFailed("archive"));
      }
      return None;
    }

    /**
     * `GetStatus`: a fresh request holding the row's id, file name, directory,
     * status and creation time; for an unknown id, the zero request.
     */
    method GetStatus(id: string) returns (result: Models.Request)
      requires database.Valid()
      ensures fresh(result)
      ensures id in database.rows ==>
        var row := database.rows[id];
        result.id == id && result.file == row.fileName && result.dir == row.dir
        && result.status == row.status && result.createdOn == row.createdOn
      ensures id !in database.rows ==>
        result.id == "" && result.file == "" && result.dir == "" && result.status == "" && result.createdOn == 0
      ensures result.filteredNames == "" && result.aligorithm == "" && result.partialExtraction == ""
      ensures !result.background
    {
      var row := database.Select(id);
      result := new Models.Request();
      if row.Some? {
        result.id, result.file, result.dir := row.value.id, row.value.fileName, row.value.dir;
        result.status, result.createdOn := row.value.status, row.value.createdOn;
      }
    }

    /**
     * `archiveFiles`: selects the files of `req.dir` and compresses them into
     * `req.dir + req.file`; `names` is the selection that was compressed.
     */
    method ArchiveFiles(req: Models.Request, env: ArchiveEnv)
      returns (zip: Option<seq<ZipEntry>>, err: Option<Error>, ghost names: seq<string>)
      ensures req.dir !in env.listings ==> zip == None && err == Some(ReadDirFailed(req.dir))
      ensures req.dir in env.listings ==>
        ArchiveSelection.IsSelection(env.listings[req.dir], req.filteredNames, req.file, names)
        && Compress.Compressed(names, req.dir, req.file, env, zip, err)
    {
      var fileNames := ArchiveSelection.GetListOfFileNames(req.dir, req.file, req.filteredNames, env);
      if fileNames.Failure? {
        return None, Some(fileNames.error), [];
      }
      names := fileNames.value;
      zip, err := Compress.Compress(fileNames.value, req.dir, req.file, env);
    }

    /**
     * `InitiateArchive`: runs `archiveFiles`; on its error returns it and
     * leaves status and table alone. Otherwise sets `req.status` to "done"
     * before updating the row, so the request says "done" even when the
     * update fails. `runErr` is the error of `archiveFiles`.
     */
    method InitiateArchive(req: Models.Request, env: ArchiveEnv)
      returns (zip: Option<seq<ZipEntry>>, err: Option<Error>, ghost runErr: Option<Error>)
      requires database.Valid()
      modifies req, database
      ensures database.Valid()
      ensures unchanged(req`id, req`file, req`dir, req`filteredNames, req`aligorithm, req`partialExtraction, req`background, req`createdOn)
      ensures Archived(req.dir, req.file, req.filteredNames, env, zip, runErr)
      ensures runErr.Some? ==>
        err == runErr && req.status == old(req.status) && database.rows == old(database.rows)
      ensures runErr.None? ==>
        && req.status == "done"
        && database.rows == Store.WithStatus(old(database.rows), req.id, "done")
        && (err.None? <==> req.id in old(database.rows))
        && (err.Some? ==> err.value == UpdateFailed("archive"))
    {
      ghost var names;
      var archiveErr;
      zip, archiveErr, names := ArchiveFiles(req, env);
      runErr := archiveErr;
      if archiveErr.Some? {
        return zip, archiveErr, runErr;
      }
      req.status := "done";
      err := UpdateStatus(req);
    }

    /**
     * `CreateArchive`: records the job under the fresh `id`; a background job
     * stops there with status "new", any other runs at once. A job that runs
     * and succeeds leaves its row "done"; one that fails leaves it "new".
     */
    method CreateArchive(req: Models.Request, id: string, now: int, env: ArchiveEnv)
      returns (zip: Option<seq<ZipEntry>>, err: Option<Error>, ghost runErr: Option<Error>)
      requires database.Valid()
      modifies req, database
      ensures database.Valid()
      ensures req.id == id
      ensures unchanged(req`file, req`dir, req`filteredNames, req`aligorithm, req`partialExtraction, req`background, req`createdOn)
      ensures id in old(database.rows) ==>
        zip == None && err == Some(InsertFailed("archive")) && req.status == "new"
        && database.rows == old(database.rows)
      ensures id !in old(database.rows) && req.background ==>
        zip == None && err == None && req.status == "new"
        && database.rows == old(database.rows)[id := NewRow(id, req.file, req.dir, req.aligorithm, req.filteredNames, true, now)]
      ensures id !in old(database.rows) && !req.background ==>
        && Archived(req.dir, req.file, req.filteredNames, env, zip, runErr)
        && err == runErr
        && req.status == (if runErr.None? then "done" else "new")
        && database.rows == old(database.rows)[id := NewRow(id, req.file, req.dir, req.aligorithm, req.filteredNames, false, now).(status := req.status)]
    {
      runErr := None;
      err := InsertRecordToDB(req, id, now);
      if err.Some? {
        return None, err, runErr;
      }
      if req.background {
        return None, None, runErr;
      }
      ghost var row := NewRow(id, req.file, req.dir, req.aligorithm, req.filteredNames, false, now);
      zip, err, runErr := InitiateArchive(req, env);
      Store.WithStatusOfInserted(old(database.rows), id, row, "done");
    }
  }
}
