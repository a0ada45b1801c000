/**
 * `extractFiles`: which entries of a zip the extract service writes out, and
 * what it leaves on disk. The zip is a sequence of entries; the file system
 * is observed through the effects the loop has, in order.
 */
module Extraction {
  import opened Wrappers
  import opened Io
  import Text
  import Strconv
  import opened NameFilter

  /**
   * How entries are chosen: by the name filter, by "partial extraction"
   * indices (the `|`-separated parts of `partialExtraction`), or all of them.
   */
  datatype Mode = ByName(fileNames: map<string, string>) | ByIndex(parts: seq<string>) | All

  /**
   * The flags `hasFilteredName` and `hasPartialExtraction`: the name filter
   * wins when `len(filteredNames) > 1`; index mode needs a split of
   * `partialExtraction` into more than one part.
   */
  function ModeOf(filteredNames: string, partialExtraction: string): Mode {
    if Text.Utf8Len(filteredNames) > 1 then ByName(FilterMap(filteredNames))
    else if |Text.Split(partialExtraction, '|')| > 1 then ByIndex(Text.Split(partialExtraction, '|'))
    else All
  }

  /** Some part, read with `strconv.ParseInt(part, 6, 12)` and its error ignored, names 0-based position `i` as `i + 1`. */
  predicate PicksIndex(parts: seq<string>, i: nat) {
    exists j :: 0 <= j < |parts| && Strconv.ParseInt(parts[j]).value - 1 == i
  }

  /** Whether the entry `e` at position `i` passes the filter of the entry loop. */
  predicate Selected(mode: Mode, i: nat, e: ZipEntry) {
    match mode
    case ByName(m) => |m| > 0 ==> Text.Utf8Len(Lookup(m, Text.Stem(e.name))) >= 1
    case ByIndex(parts) => PicksIndex(parts, i)
    case All => true
  }

  /** What the loop does to the file system for one entry. */
  datatype Effect =
    | MadeDir(path: string)                  // `os.MkdirAll`, its error ignored
    | WroteFile(path: string, data: seq<byte>) // created or truncated, then filled
    | PartialFile(path: string)              // created or truncated, then the copy failed

  /** The effect of extracting `e` when every step succeeds. */
  function Written(e: ZipEntry, dir: string): Effect {
    var path := Text.Join(dir, e.name);
    if e.isDir then MadeDir(path) else WroteFile(path, e.data)
  }

  /**
   * One selected entry at position `i`: open it, then create a directory, or
   * create the output file at `Join(dir, name)` and copy into it.
   */
  function Step(e: ZipEntry, i: nat, dir: string, env: ExtractEnv): (r: (seq<Effect>, Option<Error>))
    ensures r.1.None? <==> i !in env.unopenable && (e.isDir || (Text.Join(dir, e.name) !in env.unwritable && i !in env.copyFails))
    ensures r.1.None? ==> r.0 == [Written(e, dir)]
    ensures e.isDir && r.1.Some? ==> r == ([], Some(EntryOpenFailed(e.name)))
    ensures |r.0| <= 1
  {
    if i in env.unopenable then ([], Some(EntryOpenFailed(e.name)))
    else
      var path := Text.Join(dir, e.name);
      if e.isDir then ([MadeDir(path)], None)
      else if path in env.unwritable then ([], Some(OutputCreateFailed(path)))
      else if i in env.copyFails then ([PartialFile(path)], Some(OutputWriteFailed(path)))
      else ([WroteFile(path, e.data)], None)
  }

  /** The entry loop from position `i` on: the effects it has, and the error that stops it. */
  function ExtractFrom(entries: seq<ZipEntry>, i: nat, mode: Mode, dir: string, env: ExtractEnv): (seq<Effect>, Option<Error>)
    decreases |entries| - i
  {
    if i >= |entries| then ([], None)
    else if !Selected(mode, i, entries[i]) then ExtractFrom(entries, i + 1, mode, dir, env)
    else
      var step := Step(entries[i], i, dir, env);
      if step.1.Some? then step
      else
        var rest := ExtractFrom(entries, i + 1, mode, dir, env);
        (step.0 + rest.0, rest.1)
  }

  /**
   * `extractFiles` on a request: the zip is opened at `dir + file` (no
   * separator); if that fails nothing is extracted.
   */
  function Extract(dir: string, file: string, filteredNames: string, partialExtraction: string, env: ExtractEnv)
    : (r: (seq<Effect>, Option<Error>))
    ensures dir + file !in env.archives ==> r == ([], Some(ArchiveOpenFailed))
  {
    var zipPath := dir + file;
    if zipPath !in env.archives then ([], Some(ArchiveOpenFailed))
    else ExtractFrom(env.archives[zipPath], 0, ModeOf(filteredNames, partialExtraction), dir, env)
  }

  /** One turn of the entry loop: a skipped entry, a failing one, or one that goes through. */
  lemma ExtractFromUnfold(entries: seq<ZipEntry>, i: nat, mode: Mode, dir: string, env: ExtractEnv)
    requires i < |entries|
    ensures !Selected(mode, i, entries[i]) ==>
      ExtractFrom(entries, i, mode, dir, env) == ExtractFrom(entries, i + 1, mode, dir, env)
    ensures Selected(mode, i, entries[i]) && Step(entries[i], i, dir, env).1.Some? ==>
      ExtractFrom(entries, i, mode, dir, env) == Step(entries[i], i, dir, env)
    ensures Selected(mode, i, entries[i]) && Step(entries[i], i, dir, env).1.None? ==>
      ExtractFrom(entries, i, mode, dir, env).0 == Step(entries[i], i, dir, env).0 + ExtractFrom(entries, i + 1, mode, dir, env).0
      && ExtractFrom(entries, i, mode, dir, env).1 == ExtractFrom(entries, i + 1, mode, dir, env).1
  {
  }

  /** The positions the loop chooses from `i` on, in archive order. */
  function Chosen(entries: seq<ZipEntry>, i: nat, mode: Mode): (c: seq<nat>)
    ensures forall k :: 0 <= k < |c| ==> i <= c[k] < |entries| && Selected(mode, c[k], entries[c[k]])
    ensures forall k, l :: 0 <= k < l < |c| ==> c[k] < c[l]
    ensures forall p :: i <= p < |entries| && Selected(mode, p, entries[p]) ==> p in c
    decreases |entries| - i
  {
    if i >= |entries| then []
    else
      var rest := Chosen(entries, i + 1, mode);
      if Selected(mode, i, entries[i]) then [i] + rest else rest
  }

  /**
   * Lines 60-80 of `extractFiles`: the two flags, the filter map (built only
   * in name mode) and the split of `partialExtraction`.
   */
  method ReadFilters(filteredNames: string, partialExtraction: string)
    returns (hasFilteredName: bool, hasPartialExtraction: bool,
             fileNames: map<string, string>, partiallyFiltered: seq<string>)
    ensures hasFilteredName <==> ModeOf(filteredNames, partialExtraction).ByName?
    ensures hasPartialExtraction <==> ModeOf(filteredNames, partialExtraction).ByIndex?
    ensures hasFilteredName ==> ModeOf(filteredNames, partialExtraction) == ByName(fileNames)
    ensures !hasFilteredName ==> fileNames == map[]
    ensures partiallyFiltered == Text.Split(partialExtraction, '|')
  {
    hasFilteredName := false;
    hasPartialExtraction := false;
    fileNames := map[];
    partiallyFiltered := Text.Split(partialExtraction, '|');
    if Text.Utf8Len(filteredNames) > 1 {
      hasFilteredName := true;
      var names := Text.Split(filteredNames, '|');
      for k := 0 to |names|
        invariant fileNames == MapOf(names[..k])
      {
        assert names[..k + 1] == names[..k] + [names[k]];
        fileNames := fileNames[names[k] := names[k]];
      }
      assert names[..|names|] == names;
    } else if |partiallyFiltered| > 1 {
      hasPartialExtraction := true;
    }
  }

  /** Lines 90-97 of `extractFiles`: whether some part parses to `i + 1`, stopping at the first. */
  method FindIndex(partiallyFiltered: seq<string>, i: nat) returns (found: bool)
    ensures found <==> PicksIndex(partiallyFiltered, i)
  {
    found := false;
    for j := 0 to |partiallyFiltered|
      invariant !found ==> forall q :: 0 <= q < j ==> Strconv.ParseInt(partiallyFiltered[q]).value - 1 != i
      invariant found ==> PicksIndex(partiallyFiltered, i)
    {
      var record := Strconv.ParseInt(partiallyFiltered[j]).value;
      if record - 1 == i {
        found := true;
        break;
      }
    }
  }

  /**
   * Lines 103-133 of `extractFiles`, for one selected entry: open it, then
   * make the directory, or create the output file and copy the bytes. This
   * is the loop body in statement form; `Step` is its specification, and the
   * two are proved equal.
   */
  method ExtractEntry(entry: ZipEntry, i: nat, dir: string, env: ExtractEnv)
    returns (effects: seq<Effect>, err: Option<Error>)
    ensures (effects, err) == Step(entry, i, dir, env)
  {
    if i in env.unopenable {
      return [], Some(EntryOpenFailed(entry.name));
    }
    var extractedFilePath := Text.Join(dir, entry.name);
    if entry.isDir {
      return [MadeDir(extractedFilePath)], None;
    }
    if extractedFilePath in env.unwritable {
      return [], Some(OutputCreateFailed(extractedFilePath));
    }
    if i in env.copyFails {
      return [PartialFile(extractedFilePath)], Some(OutputWriteFailed(extractedFilePath));
    }
    return [WroteFile(extractedFilePath, entry.data)], None;
  }

  /**
   * Lines 83-101 of `extractFiles`: whether the entry at position `i` passes
   * the name filter or the index filter that is in force.
   */
  method IsSelected(entry: ZipEntry, i: nat, hasFilteredName: bool, hasPartialExtraction: bool,
                    fileNames: map<string, string>, partiallyFiltered: seq<string>, ghost mode: Mode)
    returns (selected: bool)
    requires hasFilteredName ==> mode == ByName(fileNames)
    requires !hasFilteredName ==> fileNames == map[]
    requires hasPartialExtraction ==> !hasFilteredName && mode == ByIndex(partiallyFiltered)
    requires !hasFilteredName && !hasPartialExtraction ==> mode == All
    ensures selected == Selected(mode, i, entry)
  {
    selected := true;
    if hasFilteredName && |fileNames| > 0 {
      var name := Text.Stem(entry.name);
      var namedFile := Lookup(fileNames, name);
      selected := Text.Utf8Len(namedFile) >= 1;
    } else if hasPartialExtraction {
      selected := FindIndex(partiallyFiltered, i);
    }
  }

  /**
   * The loop invariant of `ExtractEntries`: the effects so far followed by
   * those of the entries from `i` on are the effects of the whole loop, and
   * the loop's error is that of the entries from `i` on.
   */
  ghost predicate Remaining(entries: seq<ZipEntry>, i: nat, effects: seq<Effect>, mode: Mode, dir: string, env: ExtractEnv) {
    && ExtractFrom(entries, 0, mode, dir, env).0 == effects + ExtractFrom(entries, i, mode, dir, env).0
    && ExtractFrom(entries, 0, mode, dir, env).1 == ExtractFrom(entries, i, mode, dir, env).1
  }

  /** A skipped entry adds nothing. */
  lemma SkipTurn(entries: seq<ZipEntry>, i: nat, effects: seq<Effect>, mode: Mode, dir: string, env: ExtractEnv)
    requires i < |entries| && !Selected(mode, i, entries[i]) && Remaining(entries, i, effects, mode, dir, env)
    ensures Remaining(entries, i + 1, effects, mode, dir, env)
  {
    ExtractFromUnfold(entries, i, mode, dir, env);
  }

  /** An entry that goes through adds the effects of its step. */
  lemma GoTurn(entries: seq<ZipEntry>, i: nat, effects: seq<Effect>, mode: Mode, dir: string, env: ExtractEnv)
    requires i < |entries| && Selected(mode, i, entries[i]) && Step(entries[i], i, dir, env).1.None?
    requires Remaining(entries, i, effects, mode, dir, env)
    ensures Remaining(entries, i + 1, effects + Step(entries[i], i, dir, env).0, mode, dir, env)
  {
    ExtractFromUnfold(entries, i, mode, dir, env);
    var step := Step(entries[i], i, dir, env).0;
    var rest := ExtractFrom(entries, i + 1, mode, dir, env).0;
    assert effects + (step + rest) == (effects + step) + rest;
  }

  /** An entry whose step fails ends the loop with that step's error. */
  lemma StopTurn(entries: seq<ZipEntry>, i: nat, effects: seq<Effect>, mode: Mode, dir: string, env: ExtractEnv)
    requires i < |entries| && Selected(mode, i, entries[i]) && Step(entries[i], i, dir, env).1.Some?
    requires Remaining(entries, i, effects, mode, dir, env)
    ensures ExtractFrom(entries, 0, mode, dir, env) ==
      (effects + Step(entries[i], i, dir, env).0, Step(entries[i], i, dir, env).1)
  {
    ExtractFromUnfold(entries, i, mode, dir, env);
  }

  /** Past the last entry the loop has produced all its effects and no error. */
  lemma LoopDone(entries: seq<ZipEntry>, effects: seq<Effect>, mode: Mode, dir: string, env: ExtractEnv)
    requires Remaining(entries, |entries|, effects, mode, dir, env)
    ensures ExtractFrom(entries, 0, mode, dir, env) == (effects, None)
  {
    assert effects + [] == effects;
  }

  /**
   * Lines 82-134 of `extractFiles`: the entry loop, in archive order, with
   * an early return on the first error.
   */
  method ExtractEntries(entries: seq<ZipEntry>, dir: string, hasFilteredName: bool, hasPartialExtraction: bool,
                        fileNames: map<string, string>, partiallyFiltered: seq<string>, env: ExtractEnv,
                        ghost mode: Mode)
    returns (effects: seq<Effect>, err: Option<Error>)
    requires hasFilteredName ==> mode == ByName(fileNames)
    requires !hasFilteredName ==> fileNames == map[]
    requires hasPartialExtraction ==> !hasFilteredName && mode == ByIndex(partiallyFiltered)
    requires !hasFilteredName && !hasPartialExtraction ==> mode == All
    ensures (effects, err) == ExtractFrom(entries, 0, mode, dir, env)
  {
    effects := [];
    for i := 0 to |entries|
      invariant Remaining(entries, i, effects, mode, dir, env)
    {
      var entry := entries[i];
      var selected := IsSelected(entry, i, hasFilteredName, hasPartialExtraction, fileNames, partiallyFiltered, mode);
      if !selected {
        SkipTurn(entries, i, effects, mode, dir, env);
        continue;
      }
      var stepEffects, stepErr := ExtractEntry(entry, i, dir, env);
      if stepErr.Some? {
        StopTurn(entries, i, effects, mode, dir, env);
        return effects + stepEffects, stepErr;
      }
      GoTurn(entries, i, effects, mode, dir, env);
      effects := effects + stepEffects;
    }
    LoopDone(entries, effects, mode, dir, env);
    return effects, None;
  }

  /** `extractFiles`: opens the zip at `dir + file`, reads the filters, and runs the entry loop. */
  method ExtractFiles(dir: string, file: string, filteredNames: string, partialExtraction: string, env: ExtractEnv)
    returns (effects: seq<Effect>, err: Option<Error>)
    ensures (effects, err) == Extract(dir, file, filteredNames, partialExtraction, env)
  {
    var zipPath := dir + file;
    if zipPath !in env.archives {
      return [], Some(ArchiveOpenFailed);
    }
    var hasFilteredName, hasPartialExtraction, fileNames, partiallyFiltered :=
      ReadFilters(filteredNames, partialExtraction);
    effects, err := ExtractEntries(env.archives[zipPath], dir, hasFilteredName, hasPartialExtraction,
                                   fileNames, partiallyFiltered, env, ModeOf(filteredNames, partialExtraction));
  }

  /** Which mode the flags pick: the name filter when `len(filteredNames) > 1`, else indices when `partialExtraction` holds a '|', else all. */
  lemma ModeIff(filteredNames: string, partialExtraction: string)
    ensures ModeOf(filteredNames, partialExtraction).ByName? <==> Text.Utf8Len(filteredNames) > 1
    ensures ModeOf(filteredNames, partialExtraction).ByIndex? <==>
      Text.Utf8Len(filteredNames) <= 1 && '|' in partialExtraction
    ensures ModeOf(filteredNames, partialExtraction).All? <==>
      Text.Utf8Len(filteredNames) <= 1 && '|' !in partialExtraction
  {
  }

  /**
   * In name mode an entry is extracted exactly when its name without the
   * extension is non-empty and one of the `|`-separated filter pieces; its
   * position and whether it is a directory do not matter.
   */
  lemma NameModeSelects(filteredNames: string, partialExtraction: string, i: nat, e: ZipEntry)
    requires Text.Utf8Len(filteredNames) > 1
    ensures Selected(ModeOf(filteredNames, partialExtraction), i, e) <==>
      Text.Stem(e.name) != [] && Text.Stem(e.name) in Text.Split(filteredNames, '|')
  {
    NameModeIff(filteredNames);
    LookupIff(filteredNames, Text.Stem(e.name));
  }

  /**
   * In index mode the entry at 0-based position `i` is extracted exactly
   * when some part is a base-6 numeral for `i + 1` that parses without a
   * syntax error; a part that does not parse never selects anything.
   */
  lemma IndexModeSelects(filteredNames: string, partialExtraction: string, i: nat, e: ZipEntry)
    requires Text.Utf8Len(filteredNames) <= 1 && '|' in partialExtraction
    ensures Selected(ModeOf(filteredNames, partialExtraction), i, e) <==>
      exists part :: part in Text.Split(partialExtraction, '|')
        && Strconv.ParseInt(part).status != Strconv.SyntaxError && Strconv.ParseInt(part).value == i + 1
  {
    var parts := Text.Split(partialExtraction, '|');
    if Selected(ModeOf(filteredNames, partialExtraction), i, e) {
      var j :| 0 <= j < |parts| && Strconv.ParseInt(parts[j]).value - 1 == i;
      assert parts[j] in parts;
    }
  }

  /**
   * A single index with no '|' (and no name filter) does not restrict
   * anything: every entry of the archive is chosen.
   */
  lemma SingleIndexExtractsAll(filteredNames: string, partialExtraction: string, entries: seq<ZipEntry>)
    requires Text.Utf8Len(filteredNames) <= 1 && '|' !in partialExtraction
    ensures forall p :: 0 <= p < |entries| ==> p in Chosen(entries, 0, ModeOf(filteredNames, partialExtraction))
  {
  }

  /**
   * Indices are base 6: "2|10" extracts the entries at positions 1 and 5,
   * not the one at position 9.
   */
  lemma Base6Indices(parts: seq<string>)
    requires parts == ["2", "10"]
    ensures PicksIndex(parts, 1) && PicksIndex(parts, 5)
    ensures !PicksIndex(parts, 9)
  {
    Strconv.Examples();
    assert Strconv.ParseInt(parts[0]).value - 1 == 1;
    assert Strconv.ParseInt(parts[1]).value - 1 == 5;
  }

  /** A part too large for 12 bits is clamped to 2047 and so selects position 2046. */
  lemma ClampedIndex(parts: seq<string>)
    requires parts == ["55555x"]
    ensures PicksIndex(parts, 2046)
    ensures forall i: nat :: i != 2046 ==> !PicksIndex(parts, i)
  {
    Strconv.Examples();
    assert Strconv.ParseInt(parts[0]).value - 1 == 2046;
  }

  /** One written effect per chosen position, in order. */
  ghost predicate WrittenInOrder(effects: seq<Effect>, chosen: seq<nat>, entries: seq<ZipEntry>, dir: string) {
    && |effects| == |chosen|
    && forall k :: 0 <= k < |chosen| ==> chosen[k] < |entries| && effects[k] == Written(entries[chosen[k]], dir)
  }

  /** Putting one more chosen position and its effect in front keeps effects and positions in step. */
  lemma WrittenCons(w: Effect, effects: seq<Effect>, i: nat, chosen: seq<nat>, entries: seq<ZipEntry>, dir: string)
    requires i < |entries| && w == Written(entries[i], dir) && WrittenInOrder(effects, chosen, entries, dir)
    ensures WrittenInOrder([w] + effects, [i] + chosen, entries, dir)
  {
    var e, c := [w] + effects, [i] + chosen;
    forall k | 0 <= k < |c|
      ensures c[k] < |entries| && e[k] == Written(entries[c[k]], dir)
    {
      if k > 0 {
        assert c[k] == chosen[k - 1] && e[k] == effects[k - 1];
      }
    }
  }

  /**
   * When the loop finishes, there is one effect per chosen entry, in archive
   * order: a directory made or a file written at `Join(dir, name)`.
   */
  lemma {:induction false} ExtractSuccess(entries: seq<ZipEntry>, i: nat, mode: Mode, dir: string, env: ExtractEnv)
    requires ExtractFrom(entries, i, mode, dir, env).1 == None
    ensures WrittenInOrder(ExtractFrom(entries, i, mode, dir, env).0, Chosen(entries, i, mode), entries, dir)
    decreases |entries| - i
  {
    if i < |entries| {
      ExtractFromUnfold(entries, i, mode, dir, env);
      var step := Step(entries[i], i, dir, env);
      assert Selected(mode, i, entries[i]) ==> step.1 == None;
      ExtractSuccess(entries, i + 1, mode, dir, env);
      if Selected(mode, i, entries[i]) {
        WrittenCons(Written(entries[i], dir), ExtractFrom(entries, i + 1, mode, dir, env).0, i,
                    Chosen(entries, i + 1, mode), entries, dir);
      }
    }
  }

  /** The loop over a prefix `entries[..n]` takes the same turn at `i < n` as over `entries`. */
  lemma PrefixTurn(entries: seq<ZipEntry>, n: nat, i: nat, mode: Mode, dir: string, env: ExtractEnv)
    requires i < n <= |entries|
    ensures var prefix, rest, restPrefix :=
        ExtractFrom(entries[..n], i, mode, dir, env), ExtractFrom(entries, i + 1, mode, dir, env),
        ExtractFrom(entries[..n], i + 1, mode, dir, env);
      var step := Step(entries[i], i, dir, env);
      && (!Selected(mode, i, entries[i]) ==> ExtractFrom(entries, i, mode, dir, env) == rest && prefix == restPrefix)
      && (Selected(mode, i, entries[i]) && step.1.None? ==>
            && ExtractFrom(entries, i, mode, dir, env) == (step.0 + rest.0, rest.1)
            && prefix == (step.0 + restPrefix.0, restPrefix.1))
  {
    assert entries[..n][i] == entries[i];
    ExtractFromUnfold(entries, i, mode, dir, env);
    ExtractFromUnfold(entries[..n], i, mode, dir, env);
  }

  /**
   * The loop from `i` stopped at the chosen entry `k`: its step failed with
   * the loop's error, the entries before it went through, and the effects
   * are theirs plus those of step `k`.
   */
  ghost predicate StopsAt(entries: seq<ZipEntry>, i: nat, k: nat, mode: Mode, dir: string, env: ExtractEnv) {
    && i <= k < |entries| && Selected(mode, k, entries[k])
    && Step(entries[k], k, dir, env).1 == ExtractFrom(entries, i, mode, dir, env).1
    && ExtractFrom(entries[..k], i, mode, dir, env).1 == None
    && ExtractFrom(entries, i, mode, dir, env).0 ==
         ExtractFrom(entries[..k], i, mode, dir, env).0 + Step(entries[k], k, dir, env).0
  }

  /** A chosen entry whose step fails stops the loop right there. */
  lemma StopsHere(entries: seq<ZipEntry>, i: nat, mode: Mode, dir: string, env: ExtractEnv)
    requires i < |entries| && Selected(mode, i, entries[i]) && Step(entries[i], i, dir, env).1.Some?
    ensures StopsAt(entries, i, i, mode, dir, env)
  {
    ExtractFromUnfold(entries, i, mode, dir, env);
    assert ExtractFrom(entries[..i], i, mode, dir, env) == ([], None);
    assert [] + Step(entries[i], i, dir, env).0 == Step(entries[i], i, dir, env).0;
  }

  /** An entry that is skipped or goes through leaves the stopping point of the rest in place. */
  lemma StopsLater(entries: seq<ZipEntry>, i: nat, k: nat, mode: Mode, dir: string, env: ExtractEnv)
    requires i < |entries| && StopsAt(entries, i + 1, k, mode, dir, env)
    requires Selected(mode, i, entries[i]) ==> Step(entries[i], i, dir, env).1.None?
    ensures StopsAt(entries, i, k, mode, dir, env)
  {
    PrefixTurn(entries, k, i, mode, dir, env);
    if Selected(mode, i, entries[i]) {
      var step := Step(entries[i], i, dir, env).0;
      var restPrefix := ExtractFrom(entries[..k], i + 1, mode, dir, env).0;
      var last := Step(entries[k], k, dir, env).0;
      assert step + (restPrefix + last) == (step + restPrefix) + last;
    }
  }

  /** The entry at which a failing loop stopped, found by walking from `i`. */
  lemma {:induction false} FailurePoint(entries: seq<ZipEntry>, i: nat, mode: Mode, dir: string, env: ExtractEnv)
    returns (k: nat)
    requires ExtractFrom(entries, i, mode, dir, env).1.Some?
    ensures StopsAt(entries, i, k, mode, dir, env)
    decreases |entries| - i
  {
    if Selected(mode, i, entries[i]) && Step(entries[i], i, dir, env).1.Some? {
      k := i;
      StopsHere(entries, i, mode, dir, env);
    } else {
      ExtractFromUnfold(entries, i, mode, dir, env);
      k := FailurePoint(entries, i + 1, mode, dir, env);
      StopsLater(entries, i, k, mode, dir, env);
    }
  }

  /**
   * When the loop stops with an error, it stopped at a chosen entry `k` whose
   * step failed with that error. Everything before `k` went through, and the
   * effects are those of the entries before `k` plus the partly written file,
   * if any, of entry `k`: no later entry is touched.
   */
  lemma ExtractFailure(entries: seq<ZipEntry>, i: nat, mode: Mode, dir: string, env: ExtractEnv)
    requires ExtractFrom(entries, i, mode, dir, env).1.Some?
    ensures exists k :: (i <= k < |entries| && Selected(mode, k, entries[k])
      && Step(entries[k], k, dir, env).1 == ExtractFrom(entries, i, mode, dir, env).1
      && ExtractFrom(entries[..k], i, mode, dir, env).1 == None
      && ExtractFrom(entries, i, mode, dir, env).0 ==
           ExtractFrom(entries[..k], i, mode, dir, env).0 + Step(entries[k], k, dir, env).0)
  {
    var k := FailurePoint(entries, i, mode, dir, env);
  }

  /**
   * Nothing keeps an entry inside `dir`: an entry named "../x" extracted
   * into "/d" is written to "/x", for any plain names `d` and `x`.
   */
  lemma EntryCanEscape(d: string, x: string, data: seq<byte>, i: nat, env: ExtractEnv)
    requires d != [] && x != [] && '/' !in d && '/' !in x
    requires d != "." && d != ".." && x != "." && x != ".."
    requires i !in env.unopenable && i !in env.copyFails && "/" + x !in env.unwritable
    ensures Step(ZipEntry("../" + x, false, data), i, "/" + d, env) == ([WroteFile("/" + x, data)], None)
  {
    Text.JoinEscapes(d, x);
  }
}
