/**
 * `compress` and `appendFiles`: write one zip entry per selected name, in
 * order, skipping names of at most one byte, and stop at the first failure.
 */
module Compress {
  import opened Wrappers
  import opened Io
  import Text
  import opened Subsequences

  /**
   * `appendFiles(dir, name, zipw)`: opens `dir + "/" + name`, creates an entry
   * called `name`, and streams the file's bytes into it; each of the three
   * steps may fail, and the error names the file.
   */
  function AppendFile(dir: string, name: string, env: ArchiveEnv): (r: Result<ZipEntry, Error>)
    ensures r.Success? ==> dir + "/" + name in env.files && r.value == ZipEntry(name, false, env.files[dir + "/" + name])
    ensures r.Failure? ==> r.error in {SourceOpenFailed(name), EntryCreateFailed(name), EntryWriteFailed(name)}
  {
    var fileLoc := dir + "/" + name;
    if fileLoc !in env.files then Failure(SourceOpenFailed(name))
    else if name in env.entryRefused then Failure(EntryCreateFailed(name))
    else if fileLoc in env.copyFails then Failure(EntryWriteFailed(name))
    else Success(ZipEntry(name, false, env.files[fileLoc]))
  }

  /** The entry loop of `compress` over `files`: the entries written, and the error that stopped it. */
  function AppendAll(dir: string, files: seq<string>, env: ArchiveEnv): (seq<ZipEntry>, Option<Error>) {
    if files == [] then ([], None)
    else if Text.Utf8Len(files[0]) <= 1 then AppendAll(dir, files[1..], env)
    else
      match AppendFile(dir, files[0], env)
      case Failure(e) => ([], Some(e))
      case Success(entry) =>
        var rest := AppendAll(dir, files[1..], env);
        ([entry] + rest.0, rest.1)
  }

  /** The names `compress` hands to `appendFiles`: those longer than one byte, in order. */
  function LongNames(files: seq<string>): (long: seq<string>)
    ensures forall n :: n in long ==> n in files && Text.Utf8Len(n) > 1
    ensures forall n :: n in files && Text.Utf8Len(n) > 1 ==> n in long
  {
    if files == [] then []
    else (if Text.Utf8Len(files[0]) > 1 then [files[0]] else []) + LongNames(files[1..])
  }

  /** The names handed to `appendFiles` keep the order of the selection. */
  lemma {:induction false} LongNamesInOrder(files: seq<string>)
    ensures IsSubsequence(LongNames(files), files)
  {
    if files != [] {
      var rest := files[1..];
      LongNamesInOrder(rest);
      assert files == [files[0]] + rest;
      if Text.Utf8Len(files[0]) > 1 {
        assert LongNames(files) == [files[0]] + LongNames(rest);
        SubsequenceCons(files[0], LongNames(rest), rest);
      } else {
        assert LongNames(files) == LongNames(rest);
        SubsequenceSkipFront(files[0], LongNames(rest), rest);
      }
    }
  }

  /**
   * What `compress` leaves behind: no container when the zip file cannot be
   * created; otherwise the entries written by the loop, and its error.
   */
  predicate Compressed(files: seq<string>, dir: string, archive: string, env: ArchiveEnv,
                       zip: Option<seq<ZipEntry>>, err: Option<Error>)
  {
    if dir + archive in env.unwritable then zip == None && err == Some(ZipCreateFailed)
    else zip == Some(AppendAll(dir, files, env).0) && err == AppendAll(dir, files, env).1
  }

  /**
   * `compress(files, req)`: creates the zip at `dir + archive` (no separator
   * is added); if that fails nothing is written. Otherwise the container holds
   * the entries the loop wrote before it stopped.
   */
  method Compress(files: seq<string>, dir: string, archive: string, env: ArchiveEnv)
    returns (zip: Option<seq<ZipEntry>>, err: Option<Error>)
    ensures Compressed(files, dir, archive, env, zip, err)
  {
    var zipPath := dir + archive;
    if zipPath in env.unwritable {
      return None, Some(ZipCreateFailed);
    }
    var written: seq<ZipEntry> := [];
    assert files[0..] == files;
    for i := 0 to |files|
      invariant AppendAll(dir, files, env).0 == written + AppendAll(dir, files[i..], env).0
      invariant AppendAll(dir, files, env).1 == AppendAll(dir, files[i..], env).1
    {
      assert files[i..][1..] == files[i + 1..];
      assert files[i..][0] == files[i];
      var filename := files[i];
      if Text.Utf8Len(filename) > 1 {
        var appended := AppendFile(dir, filename, env);
        if appended.Failure? {
          assert AppendAll(dir, files[i..], env) == ([], Some(appended.error));
          assert written + [] == written;
          return Some(written), Some(appended.error);
        }
        assert AppendAll(dir, files[i..], env).0 == [appended.value] + AppendAll(dir, files[i + 1..], env).0;
        assert AppendAll(dir, files[i..], env).1 == AppendAll(dir, files[i + 1..], env).1;
        written := written + [appended.value];
      } else {
        assert AppendAll(dir, files[i..], env) == AppendAll(dir, files[i + 1..], env);
      }
    }
    assert files[|files|..] == [];
    assert written + [] == written;
    return Some(written), None;
  }

  /** `entries` holds one entry per name of `names`, in order, named after the file and holding its bytes. */
  ghost predicate EntriesOf(entries: seq<ZipEntry>, names: seq<string>, dir: string, env: ArchiveEnv) {
    && |entries| == |names|
    && forall k :: 0 <= k < |entries| ==>
         dir + "/" + names[k] in env.files && entries[k] == ZipEntry(names[k], false, env.files[dir + "/" + names[k]])
  }

  /** One more name and its entry in front keep entries and names in step. */
  lemma EntriesCons(entry: ZipEntry, entries: seq<ZipEntry>, name: string, names: seq<string>, dir: string, env: ArchiveEnv)
    requires dir + "/" + name in env.files && entry == ZipEntry(name, false, env.files[dir + "/" + name])
    requires EntriesOf(entries, names, dir, env)
    ensures EntriesOf([entry] + entries, [name] + names, dir, env)
  {
    var e, n := [entry] + entries, [name] + names;
    forall k | 0 <= k < |e|
      ensures dir + "/" + n[k] in env.files && e[k] == ZipEntry(n[k], false, env.files[dir + "/" + n[k]])
    {
      if k > 0 {
        assert e[k] == entries[k - 1] && n[k] == names[k - 1];
      }
    }
  }

  /**
   * When the loop finishes, the container holds one entry per name longer
   * than one byte, in input order, named after the file and holding its bytes.
   */
  lemma {:induction false} AppendAllSuccess(dir: string, files: seq<string>, env: ArchiveEnv)
    requires AppendAll(dir, files, env).1 == None
    ensures EntriesOf(AppendAll(dir, files, env).0, LongNames(files), dir, env)
  {
    if files != [] {
      var rest := AppendAll(dir, files[1..], env);
      if Text.Utf8Len(files[0]) <= 1 {
        assert AppendAll(dir, files, env) == rest;
        AppendAllSuccess(dir, files[1..], env);
        assert LongNames(files) == [] + LongNames(files[1..]);
      } else {
        var r := AppendFile(dir, files[0], env);
        assert r.Success?;
        assert AppendAll(dir, files, env) == ([r.value] + rest.0, rest.1);
        AppendAllSuccess(dir, files[1..], env);
        EntriesCons(r.value, rest.0, files[0], LongNames(files[1..]), dir, env);
      }
    }
  }

  /**
   * When the loop stops with an error, it stopped at some name `files[k]`
   * longer than one byte whose `appendFiles` failed with that error; every
   * earlier name went through, and the entries written are those of
   * `files[..k]`, so nothing after `files[k]` was touched.
   */
  lemma AppendAllFailure(dir: string, files: seq<string>, env: ArchiveEnv)
    requires AppendAll(dir, files, env).1.Some?
    ensures exists k :: (0 <= k < |files| && Text.Utf8Len(files[k]) > 1
      && AppendFile(dir, files[k], env) == Failure(AppendAll(dir, files, env).1.value)
      && AppendAll(dir, files[..k], env) == (AppendAll(dir, files, env).0, None))
  {
    var k := StopPoint(dir, files, env);
  }

  /** The loop over `files` stopped at the long name `files[k]`, and the names before it went through. */
  ghost predicate StoppedAt(dir: string, files: seq<string>, k: nat, env: ArchiveEnv) {
    && k < |files| && Text.Utf8Len(files[k]) > 1
    && AppendAll(dir, files, env).1.Some?
    && AppendFile(dir, files[k], env) == Failure(AppendAll(dir, files, env).1.value)
    && AppendAll(dir, files[..k], env) == (AppendAll(dir, files, env).0, None)
  }

  /** A name that is skipped or goes through moves the stopping point of the rest one place on. */
  lemma StoppedLater(dir: string, files: seq<string>, k: nat, env: ArchiveEnv)
    requires files != [] && StoppedAt(dir, files[1..], k, env)
    requires Text.Utf8Len(files[0]) > 1 ==> AppendFile(dir, files[0], env).Success?
    ensures StoppedAt(dir, files, k + 1, env)
  {
    assert files[k + 1] == files[1..][k];
    var prefix := files[..k + 1];
    assert prefix[0] == files[0] && prefix[1..] == files[1..][..k];
  }

  /** The position at which a failing loop stopped, found by walking the names. */
  lemma {:induction false} StopPoint(dir: string, files: seq<string>, env: ArchiveEnv) returns (k: nat)
    requires AppendAll(dir, files, env).1.Some?
    ensures StoppedAt(dir, files, k, env)
  {
    if Text.Utf8Len(files[0]) > 1 && AppendFile(dir, files[0], env).Failure? {
      k := 0;
      assert files[..0] == [];
    } else {
      assert AppendAll(dir, files[1..], env).1 == AppendAll(dir, files, env).1;
      var j := StopPoint(dir, files[1..], env);
      StoppedLater(dir, files, j, env);
      k := j + 1;
    }
  }

  /** A one-character ASCII name is never archived, even when it was selected. */
  lemma ShortNamesSkipped(dir: string, files: seq<string>, env: ArchiveEnv, name: string)
    requires |name| <= 1 && (name == [] || name[0] as int < 0x80)
    ensures name !in LongNames(files)
  {
    Text.LongerThanOneByte(name);
  }
}
