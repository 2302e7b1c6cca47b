/** `check_for_duplicates` as the program runs it: three passes of nested
    loops that append to `files_by_size` and `files_by_small_hash`, write
    `files_by_full_hash`, bump `removed` and `skipped`, and remove files
    from the disk. */
module Scanner {
  import opened FileSystem
  import opened Hashing
  import opened Buckets
  import opened Pipeline

  /** Stage 1: every walked path whose realpath and size can be taken is
      appended under its size. */
  method GroupBySize(disk: Disk, walked: seq<Path>) returns (filesBySize: Buckets<nat>)
    ensures filesBySize == SizeGroups(walked, disk.files, disk.env)
  {
    filesBySize := Empty();
    var i := 0;
    while i < |walked|
      invariant 0 <= i <= |walked|
      invariant filesBySize == SizeGroups(walked[..i], disk.files, disk.env)
    {
      assert walked[..i + 1][..i] == walked[..i];
      var fullPath := walked[i];
      var resolved := Realpath(disk.env, fullPath);
      if resolved.Some? {
        fullPath := resolved.value;
        var fileSize := disk.GetSize(fullPath);
        if fileSize.Some? {
          filesBySize := Append(filesBySize, fileSize.value, fullPath);
        }
      }
      i := i + 1;
    }
    assert walked[..i] == walked;
  }

  /** The inner loop of stage 2 over one size group: each file whose first
      1024 bytes can be hashed is appended under that digest. */
  method HashPrefixes(disk: Disk, files: seq<Path>, filesBySmallHash: Buckets<Digest>, ghost done: seq<Path>)
    returns (r: Buckets<Digest>)
    requires filesBySmallHash == PrefixGroups(done, disk.files, disk.env)
    ensures r == PrefixGroups(done + files, disk.files, disk.env)
  {
    r := filesBySmallHash;
    assert done + files[..0] == done;
    var j := 0;
    while j < |files|
      invariant 0 <= j <= |files|
      invariant r == PrefixGroups(done + files[..j], disk.files, disk.env)
    {
      assert done + files[..j + 1] == (done + files[..j]) + [files[j]];
      PrefixGroupsSnoc(done + files[..j], files[j], disk.files, disk.env);
      var filename := files[j];
      var smallHash := GetHash(disk, filename, true);
      if smallHash.Some? {
        r := Append(r, smallHash.value, filename);
      }
      j := j + 1;
    }
    assert files[..j] == files;
  }

  /** The body of the stage-2 loop for the `i`-th size group: skip a group
      of fewer than two, else hash each member on its first 1024 bytes. */
  method HashSizeGroup(disk: Disk, filesBySize: Buckets<nat>, i: nat, filesBySmallHash: Buckets<Digest>)
    returns (r: Buckets<Digest>)
    requires Valid(filesBySize) && i < |filesBySize.keys|
    requires filesBySmallHash == PrefixGroups(EligibleUpTo(filesBySize, i), disk.files, disk.env)
    ensures r == PrefixGroups(EligibleUpTo(filesBySize, i + 1), disk.files, disk.env)
  {
    EligibleUpToNext(filesBySize, i);
    var files := filesBySize.groups[filesBySize.keys[i]];
    if |files| < 2 {
      return filesBySmallHash;
    }
    r := HashPrefixes(disk, files, filesBySmallHash, EligibleUpTo(filesBySize, i));
  }

  /** Stage 2: every member of a size group of two or more is hashed on its
      first 1024 bytes and appended under that digest. */
  method GroupByPrefixHash(disk: Disk, filesBySize: Buckets<nat>) returns (filesBySmallHash: Buckets<Digest>)
    requires Valid(filesBySize)
    ensures filesBySmallHash == PrefixGroups(Eligible(filesBySize), disk.files, disk.env)
  {
    filesBySmallHash := Empty();
    var i := 0;
    assert EligibleUpTo(filesBySize, 0) == [];
    while i < |filesBySize.keys|
      invariant 0 <= i <= |filesBySize.keys|
      invariant filesBySmallHash == PrefixGroups(EligibleUpTo(filesBySize, i), disk.files, disk.env)
    {
      filesBySmallHash := HashSizeGroup(disk, filesBySize, i, filesBySmallHash);
      i := i + 1;
    }
    assert Eligible(filesBySize) == EligibleUpTo(filesBySize, i);
  }

  /** The body of the stage-3 loop for one file: hash it in full, then keep
      it as the survivor of a new digest, or report it as a duplicate of the
      survivor and remove it (once each pair of backslashes in its name is
      collapsed to one), counting a PermissionError as skipped. Any other
      removal error is returned in `crashed`. */
  method VisitCandidate(disk: Disk, filename: Path, table: map<Digest, Path>, removed: nat, skipped: nat, reports: seq<Report>)
    returns (table': map<Digest, Path>, removed': nat, skipped': nat, reports': seq<Report>, crashed: Option<Path>)
    modifies disk
    ensures Resolution(table', removed', skipped', disk.files, reports', crashed)
         == ResolveStep(Resolution(table, removed, skipped, old(disk.files), reports, None), filename, disk.env)
  {
    table', removed', skipped', reports', crashed := table, removed, skipped, reports, None;
    var fullHash := GetHash(disk, filename, false);
    if fullHash.None? {
      return;
    }
    if fullHash.value in table {
      var duplicate := table[fullHash.value];
      var target := Unescape(filename);
      var outcome := disk.Remove(target);
      reports' := reports + [Report(filename, duplicate, outcome)];
      if outcome == Failed {
        crashed := Some(target);
        return;
      }
      if outcome == PermissionDenied {
        skipped' := skipped + 1;
      }
      removed' := removed + 1;
    } else {
      table' := table[fullHash.value := filename];
    }
  }

  /** One pass of the inner loop of stage 3: visit the `j`-th member of a
      prefix group. */
  method VisitGroupMember(disk: Disk, files: seq<Path>, j: nat, table: map<Digest, Path>, removed: nat, skipped: nat,
                          reports: seq<Report>, ghost done: seq<Path>, ghost start: Resolution)
    returns (table': map<Digest, Path>, removed': nat, skipped': nat, reports': seq<Report>, crashed: Option<Path>)
    requires j < |files|
    requires Resolution(table, removed, skipped, disk.files, reports, None) == Resolve(done + files[..j], start, disk.env)
    modifies disk
    ensures Resolution(table', removed', skipped', disk.files, reports', crashed) == Resolve(done + files[..j + 1], start, disk.env)
  {
    assert done + files[..j + 1] == (done + files[..j]) + [files[j]];
    ResolveSnoc(done + files[..j], files[j], start, disk.env);
    table', removed', skipped', reports', crashed := VisitCandidate(disk, files[j], table, removed, skipped, reports);
  }

  /** The inner loop of stage 3 over one prefix group, stopping at the
      first fatal removal error. */
  method ResolveGroup(disk: Disk, files: seq<Path>, table: map<Digest, Path>, removed: nat, skipped: nat,
                      reports: seq<Report>, ghost done: seq<Path>, ghost start: Resolution)
    returns (table': map<Digest, Path>, removed': nat, skipped': nat, reports': seq<Report>, crashed: Option<Path>)
    requires Resolution(table, removed, skipped, disk.files, reports, None) == Resolve(done, start, disk.env)
    modifies disk
    ensures Resolution(table', removed', skipped', disk.files, reports', crashed) == Resolve(done + files, start, disk.env)
  {
    table', removed', skipped', reports', crashed := table, removed, skipped, reports, None;
    assert done + files[..0] == done;
    var j := 0;
    while j < |files|
      invariant 0 <= j <= |files|
      invariant crashed == None
      invariant Resolution(table', removed', skipped', disk.files, reports', None) == Resolve(done + files[..j], start, disk.env)
    {
      table', removed', skipped', reports', crashed := VisitGroupMember(disk, files, j, table', removed', skipped', reports', done, start);
      if crashed.Some? {
        assert done + files == (done + files[..j + 1]) + files[j + 1..];
        ResolveAfterCrash(done + files[..j + 1], files[j + 1..], start, disk.env);
        return;
      }
      j := j + 1;
    }
    assert files[..j] == files;
  }

  /** Stage 3: every member of a prefix group of two or more is visited in
      order; the pass ends at the first fatal removal error. */
  method ResolveByFullHash(disk: Disk, filesBySmallHash: Buckets<Digest>)
    returns (filesByFullHash: map<Digest, Path>, removed: nat, skipped: nat,
             reports: seq<Report>, crashed: Option<Path>)
    requires Valid(filesBySmallHash)
    modifies disk
    ensures Resolution(filesByFullHash, removed, skipped, disk.files, reports, crashed)
         == Resolve(Eligible(filesBySmallHash), Start(old(disk.files)), disk.env)
  {
    filesByFullHash, removed, skipped, reports, crashed := map[], 0, 0, [], None;
    ghost var start := Start(disk.files);
    var i := 0;
    while i < |filesBySmallHash.keys|
      invariant 0 <= i <= |filesBySmallHash.keys|
      invariant crashed == None
      invariant Resolution(filesByFullHash, removed, skipped, disk.files, reports, None)
             == Resolve(EligibleUpTo(filesBySmallHash, i), start, disk.env)
    {
      EligibleUpToNext(filesBySmallHash, i);
      var files := filesBySmallHash.groups[filesBySmallHash.keys[i]];
      if |files| < 2 {
        i := i + 1;
        continue;
      }
      ghost var done := EligibleUpTo(filesBySmallHash, i);
      filesByFullHash, removed, skipped, reports, crashed :=
        ResolveGroup(disk, files, filesByFullHash, removed, skipped, reports, done, start);
      if crashed.Some? {
        var rest := EligibleSplit(filesBySmallHash, i);
        ResolveAfterCrash(done + files, rest, start, disk.env);
        return;
      }
      i := i + 1;
    }
  }

  /** `check_for_duplicates(paths, statement)` for the paths the walk of
      `paths` produces: the status it reports (or the error it raises), the
      duplicates it reports, and the files left on disk. */
  method CheckForDuplicates(disk: Disk, walked: seq<Path>) returns (status: Status, reports: seq<Report>)
    modifies disk
    ensures var fin := Scan(walked, old(disk.files), disk.env);
      status == StatusOf(fin) && reports == fin.reports && disk.files == fin.files
  {
    var filesBySize := GroupBySize(disk, walked);
    var filesBySmallHash := GroupByPrefixHash(disk, filesBySize);
    var filesByFullHash, removed, skipped, crashed;
    filesByFullHash, removed, skipped, reports, crashed := ResolveByFullHash(disk, filesBySmallHash);
    if crashed.Some? {
      status := Aborted(crashed.value);
    } else {
      status := Finished(removed as int - skipped, skipped);
    }
  }
}
