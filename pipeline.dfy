/** The three-stage filter of `check_for_duplicates` as functions of the
    walked paths and the filesystem: size groups, prefix-hash groups, and
    the full-hash pass that keeps the first file of each digest and
    removes every later one. The methods of module Scanner are proved
    equal to these functions. */
module Pipeline {
  import opened FileSystem
  import opened Hashing
  import opened Buckets

  type Files = map<Path, seq<Byte>>

  /** Stage 1 for one walked path: realpath, getsize, append under the
      size; an OSError from either skips the path. */
  function SizeStep(b: Buckets<nat>, w: Path, files: Files, env: Env): (r: Buckets<nat>)
    requires Valid(b)
    ensures Valid(r)
  {
    match Realpath(env, w)
    case None => b
    case Some(rp) =>
      match SizeOf(files, rp)
      case None => b
      case Some(size) => Append(b, size, rp)
  }

  /** `files_by_size` after the walk has produced `walked`. */
  function SizeGroups(walked: seq<Path>, files: Files, env: Env): (b: Buckets<nat>)
    ensures Valid(b)
  {
    if walked == [] then Empty()
    else SizeStep(SizeGroups(walked[..|walked| - 1], files, env), walked[|walked| - 1], files, env)
  }

  /** The realpaths appended to `files_by_size`, in the order of the walk. */
  function Discovered(walked: seq<Path>, files: Files, env: Env): seq<Path>
  {
    if walked == [] then []
    else
      var earlier := Discovered(walked[..|walked| - 1], files, env);
      match Realpath(env, walked[|walked| - 1])
      case None => earlier
      case Some(rp) => if rp in files then earlier + [rp] else earlier
  }

  /** Stage 2 for one candidate: the digest of its first 1024 bytes, or
      nothing when hashing raises OSError. */
  function PrefixStep(b: Buckets<Digest>, p: Path, files: Files, env: Env): (r: Buckets<Digest>)
    requires Valid(b)
    ensures Valid(r)
  {
    match FileDigest(files, env, p, true)
    case None => b
    case Some(d) => Append(b, d, p)
  }

  /** `files_by_small_hash` after the candidates `cands` have been hashed. */
  function PrefixGroups(cands: seq<Path>, files: Files, env: Env): (b: Buckets<Digest>)
    ensures Valid(b)
  {
    if cands == [] then Empty()
    else PrefixStep(PrefixGroups(cands[..|cands| - 1], files, env), cands[|cands| - 1], files, env)
  }

  /** One "Duplicate found" event: the later file, the survivor it
      duplicates, and how its removal ended. */
  datatype Report = Report(duplicate: Path, kept: Path, outcome: RemoveOutcome)

  /** The state of stage 3: `files_by_full_hash`, the two counters, the
      files still on disk, the duplicates reported so far, and the path
      whose removal raised an error other than PermissionError, if any
      (that error ends the scan). */
  datatype Resolution = Resolution(
    table: map<Digest, Path>,
    removed: nat,
    skipped: nat,
    files: Files,
    reports: seq<Report>,
    crashed: Option<Path>)

  function Start(files: Files): Resolution
  {
    Resolution(map[], 0, 0, files, [], None)
  }

  /** Stage 3 for one candidate: hash the whole file as it is now; keep it
      as the survivor of a new digest, or remove it when the digest is
      already taken. */
  function ResolveStep(s: Resolution, p: Path, env: Env): (r: Resolution)
    ensures FileDigest(s.files, env, p, false).None? ==> r == s
    ensures forall d :: d in s.table ==> d in r.table && r.table[d] == s.table[d]
    ensures r.files.Keys <= s.files.Keys
    ensures 0 <= r.skipped - s.skipped <= r.removed - s.removed <= 1
    ensures s.reports <= r.reports
  {
    match FileDigest(s.files, env, p, false)
    case None => s
    case Some(d) =>
      if d in s.table then
        var target := Unescape(p);
        var outcome := RemovalOutcome(s.files, env, target);
        var after := s.(files := AfterRemoval(s.files, target, outcome),
                        reports := s.reports + [Report(p, s.table[d], outcome)]);
        match outcome
        case Removed => after.(removed := s.removed + 1)
        case PermissionDenied => after.(removed := s.removed + 1, skipped := s.skipped + 1)
        case Failed => after.(crashed := Some(target))
      else
        s.(table := s.table[d := p])
  }

  /** Stage 3 over the candidates `cands`, stopping at the first fatal
      removal error. */
  function Resolve(cands: seq<Path>, s: Resolution, env: Env): Resolution
  {
    if cands == [] then s
    else
      var prev := Resolve(cands[..|cands| - 1], s, env);
      if prev.crashed.Some? then prev else ResolveStep(prev, cands[|cands| - 1], env)
  }

  /** The whole of `check_for_duplicates` for the paths the walk produced. */
  function Scan(walked: seq<Path>, files: Files, env: Env): Resolution
  {
    var sizes := SizeGroups(walked, files, env);
    var small := PrefixGroups(Eligible(sizes), files, env);
    Resolve(Eligible(small), Start(files), env)
  }

  /** What the caller sees: the finishing message's two numbers, or the
      error that ended the scan. */
  datatype Status = Finished(filesRemoved: int, permissionErrors: nat) | Aborted(target: Path)

  function StatusOf(r: Resolution): Status
  {
    match r.crashed
    case Some(target) => Aborted(target)
    case None => Finished(r.removed - r.skipped, r.skipped)
  }

  /** Once a removal error has ended the scan, later candidates change
      nothing. */
  lemma {:induction false} ResolveAfterCrash(xs: seq<Path>, ys: seq<Path>, s: Resolution, env: Env)
    requires Resolve(xs, s, env).crashed.Some?
    ensures Resolve(xs + ys, s, env) == Resolve(xs, s, env)
    decreases |ys|
  {
    if ys != [] {
      var init := ys[..|ys| - 1];
      assert (xs + ys)[..|xs + ys| - 1] == xs + init;
      ResolveAfterCrash(xs, init, s, env);
    } else {
      assert xs + ys == xs;
    }
  }

  lemma PrefixGroupsSnoc(xs: seq<Path>, x: Path, files: Files, env: Env)
    ensures PrefixGroups(xs + [x], files, env) == PrefixStep(PrefixGroups(xs, files, env), x, files, env)
  {
    assert (xs + [x])[..|xs|] == xs;
  }

  lemma ResolveSnoc(xs: seq<Path>, x: Path, s: Resolution, env: Env)
    ensures Resolve(xs + [x], s, env)
         == var prev := Resolve(xs, s, env); if prev.crashed.Some? then prev else ResolveStep(prev, x, env)
  {
    assert (xs + [x])[..|xs|] == xs;
  }
}
