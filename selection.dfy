/**
 * `getListOfFileNames` and `sortFileSizeDescend`: which files of a directory
 * the archive service compresses. The answer is a fixed array of 10 names
 * whose unused slots stay "".
 */
module ArchiveSelection {
  import opened Wrappers
  import opened Io
  import Text
  import opened NameFilter
  import opened Subsequences

  /** Number of slots in the result, and the most files ever selected. */
  const Limit: nat := 10

  /** How files are chosen: by the filter map, or by size excluding the archive's own name. */
  datatype Criterion = ByName(fileNames: map<string, string>) | BySize(archive: string)

  /** Whether one listed file may be selected under `c` (the per-file test of each loop). */
  predicate Qualifies(c: Criterion, f: FileInfo) {
    match c
    case ByName(m) =>
      Text.Utf8Len(f.name) > 0 && !f.isDir && Text.Utf8Len(Lookup(m, Text.Stem(f.name))) > 0
    case BySize(archive) =>
      !f.isDir && !Text.Contains(archive, f.name)
  }

  /** The files of `files` that qualify, in their order. */
  function Qualifying(files: seq<FileInfo>, c: Criterion): (q: seq<FileInfo>)
    ensures |q| <= |files|
    ensures forall k :: 0 <= k < |q| ==> Qualifies(c, q[k])
  {
    if files == [] then []
    else
      var last := files[|files| - 1];
      Qualifying(files[..|files| - 1], c) + (if Qualifies(c, last) then [last] else [])
  }

  /** The first `n` elements of `s`, or all of them. */
  function Take<T>(s: seq<T>, n: nat): (t: seq<T>)
    ensures |t| <= n && |t| <= |s|
    ensures |s| <= n ==> t == s
    ensures |s| > n ==> t == s[..n]
  {
    if |s| <= n then s else s[..n]
  }

  /** The files selected: the first 10 that qualify. */
  function Picks(files: seq<FileInfo>, c: Criterion): (p: seq<FileInfo>)
    ensures |p| <= Limit
  {
    Take(Qualifying(files, c), Limit)
  }

  /** The 10-slot result: the names of the picks, then "". */
  function Slots(picks: seq<FileInfo>): (names: seq<string>)
    requires |picks| <= Limit
    ensures |names| == Limit
  {
    seq(Limit, k requires 0 <= k < Limit => if k < |picks| then picks[k].name else "")
  }

  /** `files` sorted by size, largest first. */
  predicate SizeOrdered(files: seq<FileInfo>) {
    forall i, j :: 0 <= i < j < |files| ==> files[i].size >= files[j].size
  }

  /** `sorted` is one of the orders `sort.Slice` may leave `listing` in (it is not stable). */
  predicate IsSizeOrderOf(sorted: seq<FileInfo>, listing: seq<FileInfo>) {
    multiset(sorted) == multiset(listing) && SizeOrdered(sorted)
  }

  /**
   * The results `getListOfFileNames` may return for a directory listing: in
   * name-filter mode the first 10 matching files in listing order; otherwise
   * the first 10 qualifying files of some size-descending order of the listing.
   */
  ghost predicate IsSelection(listing: seq<FileInfo>, filteredNames: string, archive: string, names: seq<string>) {
    var m := FilterMap(filteredNames);
    if |m| > 0 then names == Slots(Picks(listing, ByName(m)))
    else exists sorted :: IsSizeOrderOf(sorted, listing) && names == Slots(Picks(sorted, BySize(archive)))
  }

  /** One more file: the qualifying files of a prefix grow by that file when it qualifies. */
  lemma QualifyingStep(files: seq<FileInfo>, i: nat, c: Criterion)
    requires i < |files|
    ensures Qualifying(files[..i + 1], c) ==
      Qualifying(files[..i], c) + (if Qualifies(c, files[i]) then [files[i]] else [])
  {
    assert files[..i + 1][..i] == files[..i];
  }

  /** Taking the first `n` after appending one element. */
  lemma TakeAppend<T>(s: seq<T>, x: T, n: nat)
    ensures Take(s + [x], n) == if |Take(s, n)| < n then Take(s, n) + [x] else Take(s, n)
  {
    if |s| + 1 > n && |s| >= n {
      assert (s + [x])[..n] == s[..n];
    }
  }

  /** The loop step shared by both selection loops. */
  lemma PicksStep(files: seq<FileInfo>, i: nat, c: Criterion)
    requires i < |files|
    ensures Picks(files[..i + 1], c) ==
      if Qualifies(c, files[i]) && |Picks(files[..i], c)| < Limit
      then Picks(files[..i], c) + [files[i]]
      else Picks(files[..i], c)
  {
    QualifyingStep(files, i, c);
    if Qualifies(c, files[i]) {
      TakeAppend(Qualifying(files[..i], c), files[i], Limit);
    }
  }

  /** Taking one more file fills the next free slot. */
  lemma SlotsAppend(picks: seq<FileInfo>, f: FileInfo)
    requires |picks| < Limit
    ensures Slots(picks + [f]) == Slots(picks)[|picks| := f.name]
  {
  }

  /** Position of a largest file in `files[from..]`. */
  method IndexOfLargest(files: array<FileInfo>, from: nat) returns (largest: nat)
    requires from < files.Length
    ensures from <= largest < files.Length
    ensures forall k :: from <= k < files.Length ==> files[largest].size >= files[k].size
  {
    largest := from;
    for j := from + 1 to files.Length
      invariant from <= largest < files.Length
      invariant forall k :: from <= k < j ==> files[largest].size >= files[k].size
    {
      if files[j].size > files[largest].size {
        largest := j;
      }
    }
  }

  /**
   * One round of the sort: with the first `i` files sorted and no smaller than
   * the rest, exchanging file `i` with a largest of the rest extends the
   * sorted prefix by one and keeps the same files.
   */
  lemma SelectStep(s: seq<FileInfo>, i: nat, m: nat)
    requires i <= m < |s|
    requires SizeOrdered(s[..i])
    requires forall x, y :: 0 <= x < i <= y < |s| ==> s[x].size >= s[y].size
    requires forall k :: i <= k < |s| ==> s[m].size >= s[k].size
    ensures var t := s[i := s[m]][m := s[i]];
      && SizeOrdered(t[..i + 1])
      && (forall x, y :: 0 <= x < i + 1 <= y < |t| ==> t[x].size >= t[y].size)
      && multiset(t) == multiset(s)
  {
    var t := s[i := s[m]][m := s[i]];
    var u := t[..i + 1];
    forall x, y | 0 <= x < y < |u| ensures u[x].size >= u[y].size {
      if y < i {
        assert u[x] == s[..i][x] && u[y] == s[..i][y];
      }
    }
    forall x, y | 0 <= x < i + 1 <= y < |t| ensures t[x].size >= t[y].size {
      assert t[y] == s[y] || t[y] == s[i];
    }
  }

  /** Exchanges two files of the listing. */
  method Swap(files: array<FileInfo>, i: nat, j: nat)
    requires i < files.Length && j < files.Length
    modifies files
    ensures files[..] == old(files[..])[i := old(files[j])][j := old(files[i])]
  {
    files[i], files[j] := files[j], files[i];
  }

  /**
   * `sortFileSizeDescend`: sorts the listing in place by size, largest first.
   * Equal sizes may end up in any order.
   */
  method SortFileSizeDescend(files: array<FileInfo>)
    modifies files
    ensures IsSizeOrderOf(files[..], old(files[..]))
  {
    for i := 0 to files.Length
      invariant SizeOrdered(files[..i])
      invariant forall x, y :: 0 <= x < i <= y < files.Length ==> files[x].size >= files[y].size
      invariant multiset(files[..]) == multiset(old(files[..]))
    {
      var largest := IndexOfLargest(files, i);
      SelectStep(files[..], i, largest);
      Swap(files, i, largest);
    }
  }

  /** Lines 165-171 of `getListOfFileNames`: the filter map, built piece by piece. */
  method BuildFileNames(filteredNames: string) returns (fileNames: map<string, string>)
    ensures fileNames == FilterMap(filteredNames)
  {
    fileNames := map[];
    if Text.Utf8Len(filteredNames) > 1 {
      var names := Text.Split(filteredNames, '|');
      for j := 0 to |names|
        invariant fileNames == MapOf(names[..j])
      {
        assert names[..j + 1] == names[..j] + [names[j]];
        fileNames := fileNames[names[j] := names[j]];
      }
      assert names[..|names|] == names;
    }
  }

  /**
   * The name-filter loop of `getListOfFileNames`: walks the listing in order
   * and fills the next free slot with each matching file while fewer than 10
   * are taken.
   */
  method SelectByName(files: array<FileInfo>, fileNames: map<string, string>) returns (names: seq<string>)
    ensures names == Slots(Picks(files[..], ByName(fileNames)))
  {
    var limit := Limit;
    var result := new string[Limit](_ => "");
    var count := 1;
    assert result[..] == Slots([]);
    ghost var c := ByName(fileNames);
    ghost var listing := files[..];
    for i := 0 to files.Length
      invariant count == |Picks(listing[..i], c)| + 1
      invariant result[..] == Slots(Picks(listing[..i], c))
    {
      ghost var before := Picks(listing[..i], c);
      PicksStep(listing, i, c);
      var file := files[i];
      ghost var after := Picks(listing[..i + 1], c);
      if Text.Utf8Len(file.name) > 0 {
        var name := Text.Stem(file.name);
        var namedFile := Lookup(fileNames, name);
        if !file.isDir && count <= limit && Text.Utf8Len(namedFile) > 0 {
          assert after == before + [file];
          SlotsAppend(before, file);
          result[count - 1] := file.name;
          count := count + 1;
        } else {
          assert after == before;
        }
      } else {
        assert after == before;
      }
    }
    assert listing[..|listing|] == listing;
    names := result[..];
  }

  /**
   * The size loop of `getListOfFileNames`, run on the sorted listing: fills
   * the next free slot with each file that is not a directory and whose name
   * does not occur inside the archive's name, while fewer than 10 are taken.
   */
  method SelectBySize(files: array<FileInfo>, archive: string) returns (names: seq<string>)
    ensures names == Slots(Picks(files[..], BySize(archive)))
  {
    var limit := Limit;
    var result := new string[Limit](_ => "");
    var count := 1;
    assert result[..] == Slots([]);
    ghost var c := BySize(archive);
    ghost var sorted := files[..];
    for i := 0 to files.Length
      invariant count == |Picks(sorted[..i], c)| + 1
      invariant result[..] == Slots(Picks(sorted[..i], c))
    {
      ghost var before := Picks(sorted[..i], c);
      PicksStep(sorted, i, c);
      var file := files[i];
      var excluded := Text.Contains(archive, file.name);
      assert Qualifies(c, file) <==> !file.isDir && !excluded;
      if !file.isDir && count <= limit && !excluded {
        assert Picks(sorted[..i + 1], c) == before + [file];
        SlotsAppend(before, file);
        result[count - 1] := file.name;
        count := count + 1;
      } else {
        assert Picks(sorted[..i + 1], c) == before;
      }
    }
    assert sorted[..|sorted|] == sorted;
    names := result[..];
  }

  /**
   * `getListOfFileNames`: fails iff the directory cannot be listed; otherwise
   * returns 10 slots holding one of the selections `IsSelection` allows.
   */
  method GetListOfFileNames(dir: string, archive: string, filteredNames: string, env: ArchiveEnv)
    returns (r: Result<seq<string>, Error>)
    ensures dir !in env.listings ==> r == Failure(ReadDirFailed(dir))
    ensures dir in env.listings ==> r.Success? && IsSelection(env.listings[dir], filteredNames, archive, r.value)
  {
    var fileNames := BuildFileNames(filteredNames);
    if dir !in env.listings {
      return Failure(ReadDirFailed(dir));
    }
    var listing := env.listings[dir];
    var files := new FileInfo[|listing|](k requires 0 <= k < |listing| => listing[k]);
    assert files[..] == listing;
    var names;
    if |fileNames| > 0 {
      names := SelectByName(files, fileNames);
    } else {
      SortFileSizeDescend(files);
      names := SelectBySize(files, archive);
      assert IsSizeOrderOf(files[..], listing);
    }
    r := Success(names);
  }

  /** A subsequence of a size-descending sequence is size-descending. */
  lemma {:induction false} SubsequenceOrdered(a: seq<FileInfo>, b: seq<FileInfo>)
    requires IsSubsequence(a, b) && SizeOrdered(b)
    ensures SizeOrdered(a)
    decreases |b|
  {
    if a != [] {
      var b' := b[..|b| - 1];
      assert SizeOrdered(b');
      if a[|a| - 1] == b[|b| - 1] {
        var a' := a[..|a| - 1];
        SubsequenceOrdered(a', b');
        forall i | 0 <= i < |a'| ensures a'[i].size >= a[|a| - 1].size {
          SubsequenceMembers(a', b', a'[i]);
        }
      } else {
        SubsequenceOrdered(a, b');
      }
    }
  }

  /** The qualifying files, kept in listing order. */
  lemma {:induction false} QualifyingSubsequence(files: seq<FileInfo>, c: Criterion)
    ensures IsSubsequence(Qualifying(files, c), files)
    decreases |files|
  {
    if files != [] {
      var init := files[..|files| - 1];
      var last := files[|files| - 1];
      var qi := Qualifying(init, c);
      QualifyingSubsequence(init, c);
      assert init + [last] == files;
      if Qualifies(c, last) {
        assert Qualifying(files, c) == qi + [last];
        SubsequenceExtend(qi, init, last);
      } else {
        assert Qualifying(files, c) == qi;
        SubsequenceSkipLast(qi, files);
      }
    }
  }

  /** A file is among the qualifying ones iff it is listed and qualifies. */
  lemma {:induction false} QualifyingMembers(files: seq<FileInfo>, c: Criterion, f: FileInfo)
    ensures f in Qualifying(files, c) <==> f in files && Qualifies(c, f)
    decreases |files|
  {
    if files != [] {
      var init := files[..|files| - 1];
      QualifyingMembers(init, c, f);
      assert files == init + [files[|files| - 1]];
    }
  }

  /** The qualifying files of a prefix of the listing are a prefix of its qualifying files. */
  lemma {:induction false} QualifyingPrefix(files: seq<FileInfo>, i: nat, c: Criterion)
    requires i <= |files|
    ensures Qualifying(files[..i], c) <= Qualifying(files, c)
    decreases |files| - i
  {
    if i < |files| {
      var init := files[..|files| - 1];
      QualifyingPrefix(init, i, c);
      assert init[..i] == files[..i];
    } else {
      assert files[..i] == files;
    }
  }

  /** The files selected are qualifying files of the listing, in listing order, at most 10. */
  lemma PicksSound(files: seq<FileInfo>, c: Criterion)
    ensures |Picks(files, c)| <= Limit
    ensures IsSubsequence(Picks(files, c), files)
    ensures forall k :: 0 <= k < |Picks(files, c)| ==> Qualifies(c, Picks(files, c)[k])
  {
    var q := Qualifying(files, c);
    QualifyingSubsequence(files, c);
    if |q| > Limit {
      SubsequencePrefix(q, files, Limit);
    }
  }

  /** An element right after fewer than 10 leading elements is among the first 10. */
  lemma TakenAt<T>(before: seq<T>, x: T, whole: seq<T>)
    requires before + [x] <= whole && |before| < Limit
    ensures x in Take(whole, Limit)
  {
    assert whole[|before|] == x;
    assert Take(whole, Limit)[|before|] == x;
  }

  /** The first 10 rule: a qualifying file preceded by fewer than 10 qualifying files is selected. */
  lemma EarlyQualifierPicked(files: seq<FileInfo>, i: nat, c: Criterion)
    requires i < |files| && Qualifies(c, files[i])
    requires |Qualifying(files[..i], c)| < Limit
    ensures files[i] in Picks(files, c)
  {
    QualifyingStep(files, i, c);
    QualifyingPrefix(files, i + 1, c);
    TakenAt(Qualifying(files[..i], c), files[i], Qualifying(files, c));
  }

  /** Selected names are never "", so the "" padding fills exactly the slots after them. */
  lemma {:induction false} SlotsArePrefix(files: seq<FileInfo>, c: Criterion)
    ensures var names := Slots(Picks(files, c));
      forall k :: 0 <= k < Limit ==> (names[k] != "" <==> k < |Picks(files, c)|)
  {
    var p := Picks(files, c);
    forall k | 0 <= k < |p| ensures p[k].name != "" {
      PicksSound(files, c);
      assert Qualifies(c, p[k]);
      if c.BySize? {
        Text.ContainsTrivial(c.archive);
      }
    }
  }

  /**
   * On success the result has exactly 10 slots, and the selected names occupy
   * a prefix: once a slot is "", every later slot is "".
   */
  lemma SelectionShape(listing: seq<FileInfo>, filteredNames: string, archive: string, names: seq<string>)
    requires IsSelection(listing, filteredNames, archive, names)
    ensures |names| == Limit
    ensures forall i, j :: 0 <= i < j < Limit && names[i] == "" ==> names[j] == ""
  {
    var m := FilterMap(filteredNames);
    if |m| > 0 {
      SlotsArePrefix(listing, ByName(m));
    } else {
      var sorted :| IsSizeOrderOf(sorted, listing) && names == Slots(Picks(sorted, BySize(archive)));
      SlotsArePrefix(sorted, BySize(archive));
    }
  }

  /**
   * In name-filter mode (`len(filteredNames) > 1`) every selected file is a
   * listed non-directory whose extension-stripped name is a non-empty
   * `|`-separated piece of the filter; picks follow listing order; and every
   * such file preceded by fewer than 10 others is selected.
   */
  lemma NameSelection(listing: seq<FileInfo>, filteredNames: string)
    requires Text.Utf8Len(filteredNames) > 1
    ensures var c := ByName(FilterMap(filteredNames));
      && IsSubsequence(Picks(listing, c), listing)
      && (forall f :: f in Picks(listing, c) ==>
            !f.isDir && Text.Stem(f.name) != "" && Text.Stem(f.name) in Text.Split(filteredNames, '|'))
      && (forall i :: 0 <= i < |listing| && Qualifies(c, listing[i]) && |Qualifying(listing[..i], c)| < Limit
            ==> listing[i] in Picks(listing, c))
  {
    var m := FilterMap(filteredNames);
    var c := ByName(m);
    PicksSound(listing, c);
    forall f | f in Picks(listing, c)
      ensures !f.isDir && Text.Stem(f.name) != "" && Text.Stem(f.name) in Text.Split(filteredNames, '|')
    {
      var stem := Text.Stem(f.name);
      assert Qualifies(c, f);
      assert Lookup(m, stem) != "";
      assert stem in m;
    }
    forall i | 0 <= i < |listing| && Qualifies(c, listing[i]) && |Qualifying(listing[..i], c)| < Limit
      ensures listing[i] in Picks(listing, c)
    {
      EarlyQualifierPicked(listing, i, c);
    }
  }

  /** Which listed files qualify in name-filter mode, stated without the map. */
  lemma NameQualifies(filteredNames: string, f: FileInfo)
    requires Text.Utf8Len(filteredNames) > 1
    ensures Qualifies(ByName(FilterMap(filteredNames)), f) <==>
      f.name != "" && !f.isDir && Text.Stem(f.name) != "" && Text.Stem(f.name) in Text.Split(filteredNames, '|')
  {
    var stem := Text.Stem(f.name);
    var m := FilterMap(filteredNames);
    if stem in m {
      assert Lookup(m, stem) == stem;
    }
  }

  /**
   * In size mode, whatever order the unstable sort leaves: no selected file is
   * a directory or a substring of the archive name; selected sizes do not
   * increase; every qualifying file left out is no larger than every selected
   * one, and is left out only when all 10 slots are taken.
   */
  lemma SizeSelection(listing: seq<FileInfo>, archive: string, sorted: seq<FileInfo>)
    requires IsSizeOrderOf(sorted, listing)
    ensures var p := Picks(sorted, BySize(archive));
      && (forall k :: 0 <= k < |p| ==> !p[k].isDir && !Text.Contains(archive, p[k].name))
      && SizeOrdered(p)
      && (forall f :: f in listing && Qualifies(BySize(archive), f) && f !in p ==>
            |p| == Limit && forall k :: 0 <= k < |p| ==> p[k].size >= f.size)
  {
    var c := BySize(archive);
    var p := Picks(sorted, c);
    var q := Qualifying(sorted, c);
    PicksSound(sorted, c);
    SubsequenceOrdered(p, sorted);
    QualifyingSubsequence(sorted, c);
    SubsequenceOrdered(q, sorted);
    forall f | f in listing && Qualifies(c, f) && f !in p
      ensures |p| == Limit && forall k :: 0 <= k < |p| ==> p[k].size >= f.size
    {
      assert f in multiset(sorted);
      QualifyingMembers(sorted, c, f);
      var j :| 0 <= j < |q| && q[j] == f;
      assert j >= Limit;
    }
  }
}
