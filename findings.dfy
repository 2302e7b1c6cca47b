/** Two files found in the walk can resolve to one realpath (a symlink and
    its target). That path then enters `files_by_size` twice, its second
    visit in the full-hash stage matches the digest recorded for its first,
    and the file kept as survivor is removed. This module exhibits that run
    and models the evidently intended walk, which appends each realpath
    once, with the survivor guarantee proved for it.

    The backslash replacement before each removal can also turn the name of
    a duplicate into the name of its survivor; the second section exhibits
    that run. Its corrected counterpart aims each removal at the path that
    was hashed; with both corrections the survivor guarantee needs no
    premise, and on names the replacement leaves alone the corrected
    removal is the removal as written. */
module Findings {
  import opened FileSystem
  import opened Hashing
  import opened Buckets
  import opened Pipeline
  import opened Scanner
  import opened Properties

  // ---------------------------------------------------------------------
  // The code as written

  /** `link` is a symlink to `target`, a readable file whose removal
      succeeds and whose path the backslash replacement leaves alone. */
  ghost predicate LinkToFile(link: Path, target: Path, files: Files, env: Env)
  {
    && link != target
    && Realpath(env, link) == Some(target) && Realpath(env, target) == Some(target)
    && target in files && target !in env.unreadable
    && target !in env.protected && target !in env.faulty
    && !HasDoubleBackslash(target)
  }

  /** Stage 1 appends the target twice. */
  lemma SymlinkDiscovered(link: Path, target: Path, files: Files, env: Env)
    requires LinkToFile(link, target, files, env)
    ensures Discovered([link, target], files, env) == [target, target]
  {
    assert [link, target][..1] == [link] && [link][..0] == [];
    assert Discovered([link], files, env) == [target];
  }

  /** Stage 1 over two walked paths is two steps from the empty dictionary. */
  lemma SizeGroupsOfTwo(a: Path, b: Path, files: Files, env: Env)
    ensures SizeGroups([a, b], files, env) == SizeStep(SizeStep(Empty(), a, files, env), b, files, env)
  {
    assert [a][..0] == [];
    assert SizeGroups([a], files, env) == SizeStep(SizeGroups([], files, env), a, files, env);
    assert [a, b][..1] == [a];
    assert SizeGroups([a, b], files, env) == SizeStep(SizeGroups([a], files, env), b, files, env);
  }

  /** Both appends go under one size, so the second loop visits the target
      twice. */
  lemma SymlinkSizes(link: Path, target: Path, files: Files, env: Env)
    requires LinkToFile(link, target, files, env)
    ensures Eligible(SizeGroups([link, target], files, env)) == [target, target]
  {
    var n: nat := |files[target]|;
    SizeGroupsOfTwo(link, target, files, env);
    assert SizeGroups([link, target], files, env) == Append<nat>(Append(Empty(), n, target), n, target);
    AppendTwiceEligible<nat>(n, target, target);
  }

  /** Stage 2 over two candidates is two steps from the empty dictionary. */
  lemma PrefixGroupsOfTwo(a: Path, b: Path, files: Files, env: Env)
    ensures PrefixGroups([a, b], files, env) == PrefixStep(PrefixStep(Empty(), a, files, env), b, files, env)
  {
    assert [a][..0] == [];
    assert PrefixGroups([a], files, env) == PrefixStep(PrefixGroups([], files, env), a, files, env);
    assert [a, b][..1] == [a];
    assert PrefixGroups([a, b], files, env) == PrefixStep(PrefixGroups([a], files, env), b, files, env);
  }

  /** Stage 2 puts both visits under one prefix digest. */
  lemma SymlinkPrefixes(link: Path, target: Path, files: Files, env: Env)
    requires LinkToFile(link, target, files, env)
    ensures Eligible(PrefixGroups([target, target], files, env)) == [target, target]
  {
    var d := FileDigest(files, env, target, true).value;
    PrefixGroupsOfTwo(target, target, files, env);
    assert PrefixGroups([target, target], files, env) == Append(Append(Empty(), d, target), d, target);
    AppendTwiceEligible(d, target, target);
  }

  /** Stage 3 keeps the target on its first visit and removes it on its
      second, as a duplicate of itself. */
  lemma SymlinkResolves(target: Path, files: Files, env: Env)
    requires target in files && target !in env.unreadable
    requires target !in env.protected && target !in env.faulty && !HasDoubleBackslash(target)
    ensures var fin := Resolve([target, target], Start(files), env);
      && fin.table == map[Sha1Of(files[target]) := target]
      && fin.reports == [Report(target, target, Removed)]
      && fin.files == files - {target}
      && StatusOf(fin) == Finished(1, 0)
  {
    var d := Sha1Of(files[target]);
    var first := Resolve([target], Start(files), env);
    assert first == Start(files).(table := map[d := target]) by {
      assert [target][..0] == [];
      assert Resolve([], Start(files), env) == Start(files);
      assert first == ResolveStep(Start(files), target, env);
    }
    assert [target, target][..1] == [target];
    assert RemovalOutcome(files, env, target) == Removed;
  }

  /** A symlink listed before the file it points to: the one file is both
      the recorded survivor and the removed duplicate, so it is gone at the
      end while `files_by_full_hash` still names it. */
  lemma SymlinkRemovesItsSurvivor(link: Path, target: Path, files: Files, env: Env)
    requires LinkToFile(link, target, files, env)
    ensures var fin := Scan([link, target], files, env);
      && Discovered([link, target], files, env) == [target, target]
      && fin.table == map[Sha1Of(files[target]) := target]
      && fin.reports == [Report(target, target, Removed)]
      && target !in fin.files && fin.files == files - {target}
      && StatusOf(fin) == Finished(1, 0)
  {
    SymlinkDiscovered(link, target, files, env);
    SymlinkSizes(link, target, files, env);
    SymlinkPrefixes(link, target, files, env);
    SymlinkResolves(target, files, env);
  }

  const Link: Path := "/data/link"
  const Target: Path := "/data/a.bin"

  /** A symlink and the one-byte file it points to. */
  const LinkEnv: Env := Env(map[Link := Target, Target := Target], {}, {}, {})
  const LinkFiles: Files := map[Target := [7]]

  /** The concrete walk `[Link, Target]` ends with the disk empty. */
  lemma SymlinkExample()
    ensures var fin := Scan([Link, Target], LinkFiles, LinkEnv);
      && fin.table == map[Sha1Of([7]) := Target]
      && fin.reports == [Report(Target, Target, Removed)]
      && fin.files == map[]
      && StatusOf(fin) == Finished(1, 0)
  {
    assert LinkToFile(Link, Target, LinkFiles, LinkEnv) by {
      assert Link[6] != Target[6];
    }
    SymlinkRemovesItsSurvivor(Link, Target, LinkFiles, LinkEnv);
    assert LinkFiles - {Target} == map[];
  }

  // ---------------------------------------------------------------------
  // The backslash replacement, as written

  /** `q` is a second, distinct file with the content of `p` whose name the
      backslash replacement turns into `p`; `p` is readable and its removal
      succeeds. */
  ghost predicate EscapedTwin(p: Path, q: Path, files: Files, env: Env)
  {
    && p != q && Unescape(q) == p
    && Realpath(env, p) == Some(p) && Realpath(env, q) == Some(q)
    && p in files && q in files && files[p] == files[q]
    && p !in env.unreadable && q !in env.unreadable
    && p !in env.protected && p !in env.faulty
  }

  /** Walking `p` then `q` visits both in both later stages. */
  lemma EscapedTwinCandidates(p: Path, q: Path, files: Files, env: Env)
    requires EscapedTwin(p, q, files, env)
    ensures Eligible(PrefixGroups(Eligible(SizeGroups([p, q], files, env)), files, env)) == [p, q]
  {
    assert Eligible(SizeGroups([p, q], files, env)) == [p, q] by {
      var n: nat := |files[p]|;
      var e: Buckets<nat> := Empty();
      SizeGroupsOfTwo(p, q, files, env);
      assert SizeStep(e, p, files, env) == Append(e, n, p);
      assert SizeStep(Append(e, n, p), q, files, env) == Append(Append(e, n, p), n, q);
      AppendTwiceEligible<nat>(n, p, q);
    }
    var d := FileDigest(files, env, p, true).value;
    var e: Buckets<Digest> := Empty();
    PrefixGroupsOfTwo(p, q, files, env);
    assert PrefixStep(e, p, files, env) == Append(e, d, p);
    assert FileDigest(files, env, q, true) == Some(d);
    assert PrefixStep(Append(e, d, p), q, files, env) == Append(Append(e, d, p), d, q);
    AppendTwiceEligible(d, p, q);
  }

  /** Stage 3 records `p` as survivor, reports `q` as its duplicate, and the
      removal aimed at `q` takes `p` off the disk. */
  lemma EscapedTwinResolves(p: Path, q: Path, files: Files, env: Env)
    requires EscapedTwin(p, q, files, env)
    ensures var fin := Resolve([p, q], Start(files), env);
      && fin.table == map[Sha1Of(files[p]) := p]
      && fin.reports == [Report(q, p, Removed)]
      && fin.files == files - {p}
      && StatusOf(fin) == Finished(1, 0)
  {
    var first := Resolve([p], Start(files), env);
    assert first == Start(files).(table := map[Sha1Of(files[p]) := p]) by {
      assert [p][..0] == [];
      assert Resolve([], Start(files), env) == Start(files);
      assert first == ResolveStep(Start(files), p, env);
    }
    assert [p, q][..1] == [p];
    assert RemovalOutcome(files, env, p) == Removed;
  }

  /** Walking `p` then `q`: the recorded survivor `p` is removed and the
      reported duplicate `q` stays on disk. */
  lemma EscapedTwinRemovesSurvivor(p: Path, q: Path, files: Files, env: Env)
    requires EscapedTwin(p, q, files, env)
    ensures var fin := Scan([p, q], files, env);
      && fin.table == map[Sha1Of(files[p]) := p]
      && fin.reports == [Report(q, p, Removed)]
      && p !in fin.files && q in fin.files && fin.files == files - {p}
      && StatusOf(fin) == Finished(1, 0)
  {
    EscapedTwinCandidates(p, q, files, env);
    EscapedTwinResolves(p, q, files, env);
  }

  const Single: Path := "a\\b"
  const Doubled: Path := "a\\\\b"

  /** Two one-byte files named `a\b` and `a\\b` as the walk lists them. */
  const EscapeEnv: Env := Env(map[Single := Single, Doubled := Doubled], {}, {}, {})
  const EscapeFiles: Files := map[Single := [7], Doubled := [7]]

  lemma DoubledUnescapes()
    ensures Unescape(Doubled) == Single
  {
    assert Doubled[1..][2..] == "b";
    assert Unescape("b") == "b" by {
      assert "b"[1..] == [];
    }
    assert Unescape(Doubled[1..]) == "\\b";
    assert Doubled[0] == 'a' && Doubled[1] == '\\';
  }

  /** The concrete walk `[a\b, a\\b]`: the survivor `a\b` is removed and
      the duplicate `a\\b` stays. */
  lemma EscapeExample()
    ensures var fin := Scan([Single, Doubled], EscapeFiles, EscapeEnv);
      && fin.reports == [Report(Doubled, Single, Removed)]
      && fin.files == map[Doubled := [7]]
      && StatusOf(fin) == Finished(1, 0)
  {
    EscapeInstance();
    EscapedTwinRemovesSurvivor(Single, Doubled, EscapeFiles, EscapeEnv);
    EscapeFilesLeft();
  }

  lemma EscapeFilesLeft()
    ensures EscapeFiles - {Single} == map[Doubled := [7]]
  {
    assert Single != Doubled by {
      assert |Single| != |Doubled|;
    }
  }

  lemma EscapeInstance()
    ensures EscapedTwin(Single, Doubled, EscapeFiles, EscapeEnv)
  {
    DoubledUnescapes();
    assert |Single| != |Doubled|;
  }

  // ---------------------------------------------------------------------
  // The evidently intended walk

  /** The walked paths with every path dropped whose realpath an earlier
      kept path already contributed to `files_by_size`. */
  function UniqueWalk(walked: seq<Path>, files: Files, env: Env): seq<Path>
  {
    if walked == [] then []
    else
      var kept := UniqueWalk(walked[..|walked| - 1], files, env);
      var w := walked[|walked| - 1];
      match Realpath(env, w)
      case Some(rp) => if rp in Discovered(kept, files, env) then kept else kept + [w]
      case None => kept + [w]
  }

  /** The corrected walk contributes each realpath of the original walk,
      and each only once. */
  lemma {:induction false} UniqueWalkDiscovers(walked: seq<Path>, files: Files, env: Env)
    ensures Distinct(Discovered(UniqueWalk(walked, files, env), files, env))
    ensures forall p :: p in Discovered(UniqueWalk(walked, files, env), files, env) <==> p in Discovered(walked, files, env)
  {
    if walked != [] {
      var init, w := walked[..|walked| - 1], walked[|walked| - 1];
      assert walked == init + [w];
      UniqueWalkDiscovers(init, files, env);
      DiscoveredSnoc(init, w, files, env);
      var kept := UniqueWalk(init, files, env);
      match Realpath(env, w)
      case None =>
        DiscoveredSnoc(kept, w, files, env);
      case Some(rp) =>
        if rp !in Discovered(kept, files, env) {
          DiscoveredSnoc(kept, w, files, env);
          DistinctSnoc(Discovered(kept, files, env), rp);
        }
    }
  }

  /** `check_for_duplicates` with each realpath appended once. */
  function ScanOnce(walked: seq<Path>, files: Files, env: Env): Resolution
  {
    Scan(UniqueWalk(walked, files, env), files, env)
  }

  /** With each realpath appended once, no recorded survivor is ever the
      target of a removal and every survivor is still on disk at the end;
      the only premise left is that no path is rewritten by the backslash
      replacement. */
  lemma ScanOnceKeepsSurvivors(walked: seq<Path>, files: Files, env: Env)
    requires forall p :: p in Discovered(walked, files, env) ==> !HasDoubleBackslash(p)
    ensures var fin := ScanOnce(walked, files, env);
      && (forall d :: d in fin.table ==> fin.table[d] in fin.files)
      && (forall i, d :: 0 <= i < |fin.reports| && d in fin.table ==> Unescape(fin.reports[i].duplicate) != fin.table[d])
  {
    UniqueWalkDiscovers(walked, files, env);
    SurvivorsNeverRemoved(UniqueWalk(walked, files, env), files, env);
  }

  /** The corrected first loop: skip a walked path whose realpath was
      already appended. */
  method SkipSeenRealpaths(disk: Disk, walked: seq<Path>) returns (unique: seq<Path>)
    ensures unique == UniqueWalk(walked, disk.files, disk.env)
  {
    unique := [];
    var seen: set<Path> := {};
    var i := 0;
    while i < |walked|
      invariant 0 <= i <= |walked|
      invariant unique == UniqueWalk(walked[..i], disk.files, disk.env)
      invariant forall p :: p in seen <==> p in Discovered(unique, disk.files, disk.env)
    {
      var w := walked[i];
      assert walked[..i + 1] == walked[..i] + [w];
      assert walked[..i + 1][..i] == walked[..i];
      DiscoveredSnoc(unique, w, disk.files, disk.env);
      var rp := Realpath(disk.env, w);
      if rp.Some? && rp.value in seen {
      } else {
        if rp.Some? && rp.value in disk.files {
          seen := seen + {rp.value};
        }
        unique := unique + [w];
      }
      i := i + 1;
    }
    assert walked[..i] == walked;
  }

  // ---------------------------------------------------------------------
  // The evidently intended removal

  /** Stage 3 for one candidate with the removal aimed at the path that was
      hashed and found in the table. */
  function DirectStep(s: Resolution, p: Path, env: Env): (r: Resolution)
    ensures !HasDoubleBackslash(p) ==> r == ResolveStep(s, p, env)
    ensures forall d :: d in s.table ==> d in r.table && r.table[d] == s.table[d]
    ensures r.files.Keys <= s.files.Keys
  {
    match FileDigest(s.files, env, p, false)
    case None => s
    case Some(d) =>
      if d in s.table then
        var outcome := RemovalOutcome(s.files, env, p);
        var after := s.(files := AfterRemoval(s.files, p, outcome),
                        reports := s.reports + [Report(p, s.table[d], outcome)]);
        match outcome
        case Removed => after.(removed := s.removed + 1)
        case PermissionDenied => after.(removed := s.removed + 1, skipped := s.skipped + 1)
        case Failed => after.(crashed := Some(p))
      else
        s.(table := s.table[d := p])
  }

  /** Stage 3 over `cands` with the corrected removal. */
  function DirectResolve(cands: seq<Path>, s: Resolution, env: Env): Resolution
  {
    if cands == [] then s
    else
      var prev := DirectResolve(cands[..|cands| - 1], s, env);
      if prev.crashed.Some? then prev else DirectStep(prev, cands[|cands| - 1], env)
  }

  /** On names the replacement leaves alone, the corrected stage 3 is the
      stage 3 as written. */
  lemma {:induction false} DirectResolveAgrees(cands: seq<Path>, s: Resolution, env: Env)
    requires forall p :: p in cands ==> !HasDoubleBackslash(p)
    ensures DirectResolve(cands, s, env) == Resolve(cands, s, env)
  {
    if cands != [] {
      DirectResolveAgrees(cands[..|cands| - 1], s, env);
      assert cands[|cands| - 1] in cands;
    }
  }

  /** Every recorded survivor is a visited file still on disk, every report
      names a visited file, and no reported duplicate is a survivor. */
  ghost predicate Kept(s: Resolution, cands: seq<Path>)
  {
    && (forall d :: d in s.table ==> s.table[d] in cands && s.table[d] in s.files)
    && (forall i :: 0 <= i < |s.reports| ==> s.reports[i].duplicate in cands)
    && (forall i, d :: 0 <= i < |s.reports| && d in s.table ==> s.reports[i].duplicate != s.table[d])
  }

  lemma DirectStepKeeps(s: Resolution, init: seq<Path>, x: Path, env: Env)
    requires Kept(s, init) && x !in init
    ensures Kept(DirectStep(s, x, env), init + [x])
  {
    var fin := DirectStep(s, x, env);
    match FileDigest(s.files, env, x, false)
    case None =>
    case Some(d) =>
      if d in s.table {
        var outcome := RemovalOutcome(s.files, env, x);
        assert fin.table == s.table;
        assert fin.files == AfterRemoval(s.files, x, outcome);
        assert fin.reports == s.reports + [Report(x, s.table[d], outcome)];
        forall d' | d' in fin.table ensures fin.table[d'] in fin.files {
          assert s.table[d'] in init;
        }
      } else {
        assert fin.table == s.table[d := x] && fin.files == s.files && fin.reports == s.reports;
      }
  }

  /** With distinct candidates, the corrected stage 3 never aims a removal
      at a recorded survivor, whatever the names. */
  lemma {:induction false} DirectResolveKeeps(cands: seq<Path>, files0: Files, env: Env)
    requires Distinct(cands)
    ensures Kept(DirectResolve(cands, Start(files0), env), cands)
  {
    if cands != [] {
      var init, x := cands[..|cands| - 1], cands[|cands| - 1];
      assert cands == init + [x];
      DistinctSnoc(init, x);
      DirectResolveKeeps(init, files0, env);
      var s := DirectResolve(init, Start(files0), env);
      if s.crashed.None? {
        DirectStepKeeps(s, init, x, env);
      }
    }
  }

  /** `check_for_duplicates` with both corrections: each realpath appended
      once, and each removal aimed at the file that was hashed. */
  function FixedScan(walked: seq<Path>, files: Files, env: Env): Resolution
  {
    var sizes := SizeGroups(UniqueWalk(walked, files, env), files, env);
    var small := PrefixGroups(Eligible(sizes), files, env);
    DirectResolve(Eligible(small), Start(files), env)
  }

  /** With both corrections, every recorded survivor is still on disk at
      the end and no reported duplicate is a survivor, with no premise on
      the walk or the names. */
  lemma FixedScanKeepsSurvivors(walked: seq<Path>, files: Files, env: Env)
    ensures var fin := FixedScan(walked, files, env);
      && (forall d :: d in fin.table ==> fin.table[d] in fin.files)
      && (forall i, d :: 0 <= i < |fin.reports| && d in fin.table ==> fin.reports[i].duplicate != fin.table[d])
  {
    var unique := UniqueWalk(walked, files, env);
    UniqueWalkDiscovers(walked, files, env);
    var sizes := SizeGroups(unique, files, env);
    SizeGroupsDistinct(unique, files, env);
    EligibleDistinct(sizes);
    PrefixGroupsDistinct(Eligible(sizes), files, env);
    EligibleDistinct(PrefixGroups(Eligible(sizes), files, env));
    DirectResolveKeeps(Eligible(PrefixGroups(Eligible(sizes), files, env)), files, env);
  }

  /** On names the replacement leaves alone, the doubly corrected scan is
      the scan with the corrected walk. */
  lemma FixedScanAgrees(walked: seq<Path>, files: Files, env: Env)
    requires forall p :: p in Discovered(walked, files, env) ==> !HasDoubleBackslash(p)
    ensures FixedScan(walked, files, env) == ScanOnce(walked, files, env)
  {
    var unique := UniqueWalk(walked, files, env);
    UniqueWalkDiscovers(walked, files, env);
    var cands := Eligible(PrefixGroups(Eligible(SizeGroups(unique, files, env)), files, env));
    forall p | p in cands ensures !HasDoubleBackslash(p) {
      StageGating(unique, files, env, p);
    }
    DirectResolveAgrees(cands, Start(files), env);
  }

  /** `check_for_duplicates` with the corrected first loop. */
  method CheckForDuplicatesOnce(disk: Disk, walked: seq<Path>) returns (status: Status, reports: seq<Report>)
    modifies disk
    ensures var fin := ScanOnce(walked, old(disk.files), disk.env);
      status == StatusOf(fin) && reports == fin.reports && disk.files == fin.files
  {
    var unique := SkipSeenRealpaths(disk, walked);
    status, reports := CheckForDuplicates(disk, unique);
  }
}
