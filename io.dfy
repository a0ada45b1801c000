/**
 * What the services see of the file system and of zip containers, and the
 * errors they return. The file system is not modelled as a whole: each
 * service is given the observations it makes (a directory listing, the bytes
 * of a file, the entries of an archive) and the I/O steps that fail.
 */
module Io {

  type byte = bv8

  /** One element of `ioutil.ReadDir`: an `os.FileInfo` reduced to name, kind and size. */
  datatype FileInfo = FileInfo(name: string, isDir: bool, size: int)

  /** One entry of a zip container: its stored name, whether it is a directory, its bytes. */
  datatype ZipEntry = ZipEntry(name: string, isDir: bool, data: seq<byte>)

  /** The errors the services return, one constructor per place that returns one. */
  datatype Error =
    | ReadDirFailed(dir: string)          // error of ioutil.ReadDir, passed on
    | ZipCreateFailed                     // "failed to open zip for writing"
    | SourceOpenFailed(name: string)      // "failed to open <name>: ..."
    | EntryCreateFailed(name: string)     // "failed to create entry for <name> in zip file: ..."
    | EntryWriteFailed(name: string)      // "failed to write <name> to zip: ..."
    | ArchiveOpenFailed                   // "failed to open file"
    | EntryOpenFailed(name: string)       // error of zip.File.Open, passed on
    | OutputCreateFailed(path: string)    // error of os.OpenFile, passed on
    | OutputWriteFailed(path: string)     // error of io.Copy, passed on
    | InsertFailed(table: string)         // "failed to insert <table>"
    | UpdateFailed(table: string)         // "failed to update <table>"

  /**
   * What the archive service observes: directory listings, which paths can
   * be created for writing, which files open for reading and their bytes, and
   * the later steps that fail for a given file.
   */
  datatype ArchiveEnv = ArchiveEnv(
    listings: map<string, seq<FileInfo>>,  // ioutil.ReadDir(dir) succeeds iff dir is a key
    unwritable: set<string>,               // paths os.OpenFile cannot create or truncate
    files: map<string, seq<byte>>,         // paths os.Open can open, with their bytes
    entryRefused: set<string>,             // names for which zip.Writer.Create fails
    copyFails: set<string>)                // paths whose bytes io.Copy fails to stream

  /**
   * What the extract service observes: the archives that open, and the steps
   * that fail for a given entry position or output path.
   */
  datatype ExtractEnv = ExtractEnv(
    archives: map<string, seq<ZipEntry>>,  // zip.OpenReader(path) succeeds iff path is a key
    unopenable: set<nat>,                  // entry positions whose zip.File.Open fails
    unwritable: set<string>,               // output paths os.OpenFile cannot create or truncate
    copyFails: set<nat>)                   // entry positions whose bytes io.Copy fails to stream
}
