/** What the three-stage filter guarantees, stated over the functions of
    module Pipeline: which files each stage lets through, that a file is
    removed only after an earlier file with the same full content was kept,
    how the counters relate to the removals, and when a kept file is safe. */
module Properties {
  import opened FileSystem
  import opened Hashing
  import opened Buckets
  import opened Pipeline

  // ---------------------------------------------------------------------
  // Stage 1: size groups

  lemma DiscoveredSnoc(walked: seq<Path>, w: Path, files: Files, env: Env)
    ensures Discovered(walked + [w], files, env)
         == match Realpath(env, w)
            case None => Discovered(walked, files, env)
            case Some(rp) => if rp in files then Discovered(walked, files, env) + [rp] else Discovered(walked, files, env)
  {
    assert (walked + [w])[..|walked|] == walked;
  }

  /** `files_by_size` holds exactly the realpaths whose size could be
      taken. */
  lemma {:induction false} SizeGroupsMembers(walked: seq<Path>, files: Files, env: Env)
    ensures forall p :: HasEntry(SizeGroups(walked, files, env), p) <==> p in Discovered(walked, files, env)
  {
    if walked != [] {
      var init, w := walked[..|walked| - 1], walked[|walked| - 1];
      assert walked == init + [w];
      SizeGroupsMembers(init, files, env);
      DiscoveredSnoc(init, w, files, env);
      match Realpath(env, w)
      case None =>
      case Some(rp) =>
        if rp in files {
          AppendHasEntry(SizeGroups(init, files, env), |files[rp]|, rp);
        }
    }
  }

  /** Each realpath sits under its own size. */
  lemma {:induction false} SizeGroupsKeys(walked: seq<Path>, files: Files, env: Env)
    ensures forall k, p :: k in SizeGroups(walked, files, env).groups && p in SizeGroups(walked, files, env).groups[k]
              ==> p in files && |files[p]| == k
  {
    if walked != [] {
      SizeGroupsKeys(walked[..|walked| - 1], files, env);
    }
  }

  /** Distinct realpaths give distinct entries. */
  lemma {:induction false} SizeGroupsDistinct(walked: seq<Path>, files: Files, env: Env)
    requires Distinct(Discovered(walked, files, env))
    ensures DistinctEntries(SizeGroups(walked, files, env))
  {
    if walked != [] {
      var init, w := walked[..|walked| - 1], walked[|walked| - 1];
      assert walked == init + [w];
      DiscoveredSnoc(init, w, files, env);
      match Realpath(env, w)
      case None =>
        SizeGroupsDistinct(init, files, env);
      case Some(rp) =>
        if rp in files {
          DistinctSnoc(Discovered(init, files, env), rp);
          SizeGroupsDistinct(init, files, env);
          SizeGroupsMembers(init, files, env);
          AppendDistinct(SizeGroups(init, files, env), |files[rp]|, rp);
        } else {
          SizeGroupsDistinct(init, files, env);
        }
    }
  }

  // ---------------------------------------------------------------------
  // Stage 2: prefix-hash groups

  /** `files_by_small_hash` holds exactly the candidates whose first 1024
      bytes could be hashed. */
  lemma {:induction false} PrefixGroupsMembers(cands: seq<Path>, files: Files, env: Env)
    ensures forall p :: HasEntry(PrefixGroups(cands, files, env), p) <==> p in cands && ReadBytes(files, env, p).Some?
  {
    if cands != [] {
      var init, x := cands[..|cands| - 1], cands[|cands| - 1];
      assert cands == init + [x];
      PrefixGroupsMembers(init, files, env);
      match FileDigest(files, env, x, true)
      case None =>
      case Some(d) => AppendHasEntry(PrefixGroups(init, files, env), d, x);
    }
  }

  /** Each candidate sits under the digest of its own first 1024 bytes. */
  lemma {:induction false} PrefixGroupsKeys(cands: seq<Path>, files: Files, env: Env)
    ensures forall d, p :: d in PrefixGroups(cands, files, env).groups && p in PrefixGroups(cands, files, env).groups[d]
              ==> FileDigest(files, env, p, true) == Some(d)
  {
    if cands != [] {
      PrefixGroupsKeys(cands[..|cands| - 1], files, env);
    }
  }

  /** Distinct candidates give distinct entries. */
  lemma {:induction false} PrefixGroupsDistinct(cands: seq<Path>, files: Files, env: Env)
    requires Distinct(cands)
    ensures DistinctEntries(PrefixGroups(cands, files, env))
  {
    if cands != [] {
      var init, x := cands[..|cands| - 1], cands[|cands| - 1];
      assert cands == init + [x];
      DistinctSnoc(init, x);
      PrefixGroupsDistinct(init, files, env);
      PrefixGroupsMembers(init, files, env);
      match FileDigest(files, env, x, true)
      case None =>
      case Some(d) => AppendDistinct(PrefixGroups(init, files, env), d, x);
    }
  }

  // ---------------------------------------------------------------------
  // Stage gating

  /** A file reaches the full-hash stage only if its size group and its
      prefix group both have at least two members, and it got there by a
      successful getsize and a successful prefix hash. */
  lemma StageGating(walked: seq<Path>, files: Files, env: Env, p: Path)
    requires p in Eligible(PrefixGroups(Eligible(SizeGroups(walked, files, env)), files, env))
    ensures p in Discovered(walked, files, env) && p in files && ReadBytes(files, env, p).Some?
    ensures var sizes := SizeGroups(walked, files, env);
      |files[p]| in sizes.groups && |sizes.groups[|files[p]|]| >= 2 && p in sizes.groups[|files[p]|]
    ensures var small := PrefixGroups(Eligible(SizeGroups(walked, files, env)), files, env);
      var d := Sha1Of(Prefix(files[p])); d in small.groups && |small.groups[d]| >= 2 && p in small.groups[d]
  {
    var sizes := SizeGroups(walked, files, env);
    var small := PrefixGroups(Eligible(sizes), files, env);
    var d :| d in small.groups && |small.groups[d]| >= 2 && p in small.groups[d] by {
      EligibleMembers(small, p);
    }
    assert p in Eligible(sizes) && ReadBytes(files, env, p).Some? by {
      PrefixGroupsMembers(Eligible(sizes), files, env);
      assert HasEntry(small, p);
    }
    assert FileDigest(files, env, p, true) == Some(d) by {
      PrefixGroupsKeys(Eligible(sizes), files, env);
    }
    var k :| k in sizes.groups && |sizes.groups[k]| >= 2 && p in sizes.groups[k] by {
      EligibleMembers(sizes, p);
    }
    assert p in Discovered(walked, files, env) by {
      SizeGroupsMembers(walked, files, env);
      assert HasEntry(sizes, p);
    }
    assert p in files && |files[p]| == k by {
      SizeGroupsKeys(walked, files, env);
    }
  }

  // ---------------------------------------------------------------------
  // Repeated realpaths

  /** A realpath is in its size group as often as the walk found it. */
  lemma {:induction false} SizeGroupsCount(walked: seq<Path>, files: Files, env: Env, p: Path)
    requires p in files
    ensures multiset(Group(SizeGroups(walked, files, env), |files[p]|))[p] == multiset(Discovered(walked, files, env))[p]
  {
    if walked != [] {
      var init, w := walked[..|walked| - 1], walked[|walked| - 1];
      assert walked == init + [w];
      SizeGroupsCount(init, files, env, p);
      DiscoveredSnoc(init, w, files, env);
      match Realpath(env, w)
      case None =>
      case Some(rp) =>
        if rp in files {
          var b := SizeGroups(init, files, env);
          AppendGroup(b, |files[rp]|, rp, |files[p]|);
          assert SizeGroups(walked, files, env) == Append(b, |files[rp]|, rp);
          assert multiset(Discovered(walked, files, env))[p]
              == multiset(Discovered(init, files, env))[p] + multiset([rp])[p];
        }
    }
  }

  /** A readable candidate is in its prefix group as often as it is among
      the candidates. */
  lemma {:induction false} PrefixGroupsCount(cands: seq<Path>, files: Files, env: Env, p: Path)
    requires ReadBytes(files, env, p).Some?
    ensures multiset(Group(PrefixGroups(cands, files, env), Sha1Of(Prefix(files[p]))))[p] == multiset(cands)[p]
  {
    if cands != [] {
      var init, x := cands[..|cands| - 1], cands[|cands| - 1];
      assert cands == init + [x];
      PrefixGroupsCount(init, files, env, p);
      var b := PrefixGroups(init, files, env);
      match FileDigest(files, env, x, true)
      case None =>
      case Some(d) =>
        var key := Sha1Of(Prefix(files[p]));
        AppendGroup(b, d, x, key);
        assert PrefixGroups(cands, files, env) == Append(b, d, x);
        assert x == p ==> d == key;
    }
  }

  /** A readable realpath that the walk finds twice or more, such as a
      symlink beside its target, reaches the full-hash stage twice or
      more, and only such a realpath does. */
  lemma RepeatedThroughStages(walked: seq<Path>, files: Files, env: Env, p: Path)
    requires ReadBytes(files, env, p).Some?
    ensures multiset(Eligible(PrefixGroups(Eligible(SizeGroups(walked, files, env)), files, env)))[p] >= 2
        <==> multiset(Discovered(walked, files, env))[p] >= 2
  {
    SizeStageRepeats(walked, files, env, p);
    PrefixStageRepeats(Eligible(SizeGroups(walked, files, env)), files, env, p);
  }

  lemma SizeStageRepeats(walked: seq<Path>, files: Files, env: Env, p: Path)
    requires p in files
    ensures multiset(Eligible(SizeGroups(walked, files, env)))[p] >= 2 <==> multiset(Discovered(walked, files, env))[p] >= 2
  {
    var sizes := SizeGroups(walked, files, env);
    assert forall k :: k in sizes.groups && p in sizes.groups[k] ==> k == |files[p]| by {
      SizeGroupsKeys(walked, files, env);
    }
    EligibleCount(sizes, |files[p]|, p);
    SizeGroupsCount(walked, files, env, p);
  }

  lemma PrefixKeyUnique(cands: seq<Path>, files: Files, env: Env, p: Path)
    requires ReadBytes(files, env, p).Some?
    ensures forall d :: d in PrefixGroups(cands, files, env).groups && p in PrefixGroups(cands, files, env).groups[d] ==>
              d == Sha1Of(Prefix(files[p]))
  {
    PrefixGroupsKeys(cands, files, env);
    assert FileDigest(files, env, p, true) == Some(Sha1Of(Prefix(files[p])));
  }

  lemma PrefixStageRepeats(cands: seq<Path>, files: Files, env: Env, p: Path)
    requires ReadBytes(files, env, p).Some?
    ensures multiset(Eligible(PrefixGroups(cands, files, env)))[p] >= 2 <==> multiset(cands)[p] >= 2
  {
    var small := PrefixGroups(cands, files, env);
    var key := Sha1Of(Prefix(files[p]));
    PrefixKeyUnique(cands, files, env, p);
    EligibleCount(small, key, p);
    PrefixGroupsCount(cands, files, env, p);
  }

  // ---------------------------------------------------------------------
  // Stage 3: first writer wins

  ghost predicate SubFiles(f: Files, files0: Files)
  {
    forall p :: p in f ==> p in files0 && f[p] == files0[p]
  }

  /** The survivor of report `r` precedes the duplicate in `cands`. */
  ghost predicate EarlierTwin(cands: seq<Path>, r: Report)
  {
    exists a, b :: 0 <= a < b < |cands| && cands[a] == r.kept && cands[b] == r.duplicate
  }

  /** What stage 3 keeps true: files are only ever taken away; each table
      entry is a visited file whose original full content has that digest;
      each report pairs a duplicate with the survivor recorded for its
      digest, which came earlier and has the same content. */
  ghost predicate Sound(s: Resolution, cands: seq<Path>, files0: Files)
  {
    && SubFiles(s.files, files0)
    && (forall d :: d in s.table ==> s.table[d] in cands && s.table[d] in files0 && Sha1Of(files0[s.table[d]]) == d)
    && (forall i :: 0 <= i < |s.reports| ==>
          && s.reports[i].duplicate in files0 && s.reports[i].kept in files0
          && files0[s.reports[i].duplicate] == files0[s.reports[i].kept]
          && Sha1Of(files0[s.reports[i].duplicate]) in s.table
          && s.table[Sha1Of(files0[s.reports[i].duplicate])] == s.reports[i].kept
          && EarlierTwin(cands, s.reports[i]))
  }

  lemma EarlierTwinSnoc(cands: seq<Path>, x: Path, r: Report)
    requires EarlierTwin(cands, r)
    ensures EarlierTwin(cands + [x], r)
  {
    var a, b :| 0 <= a < b < |cands| && cands[a] == r.kept && cands[b] == r.duplicate;
    assert (cands + [x])[a] == r.kept && (cands + [x])[b] == r.duplicate;
  }

  lemma {:induction false} ResolveSound(cands: seq<Path>, files0: Files, env: Env)
    ensures Sound(Resolve(cands, Start(files0), env), cands, files0)
  {
    if cands != [] {
      var init, x := cands[..|cands| - 1], cands[|cands| - 1];
      assert cands == init + [x];
      ResolveSound(init, files0, env);
      var s := Resolve(init, Start(files0), env);
      if s.crashed.None? {
        SoundStep(s, init, x, files0, env);
      } else {
        SoundSnoc(s, init, x, files0);
      }
    }
  }

  /** Visiting one more candidate keeps `Sound`. */
  lemma SoundStep(s: Resolution, init: seq<Path>, x: Path, files0: Files, env: Env)
    requires Sound(s, init, files0)
    ensures Sound(ResolveStep(s, x, env), init + [x], files0)
  {
    var cands := init + [x];
    var r := ResolveStep(s, x, env);
    SoundSnoc(s, init, x, files0);
    match FileDigest(s.files, env, x, false)
    case None =>
    case Some(d) =>
      if d in s.table {
        var a :| 0 <= a < |init| && init[a] == s.table[d];
        assert cands[a] == s.table[d] && cands[|init|] == x;
        assert EarlierTwin(cands, r.reports[|s.reports|]);
      }
  }

  /** A longer visit order keeps `Sound` for an unchanged state. */
  lemma SoundSnoc(s: Resolution, init: seq<Path>, x: Path, files0: Files)
    requires Sound(s, init, files0)
    ensures Sound(s, init + [x], files0)
  {
    forall i | 0 <= i < |s.reports| ensures EarlierTwin(init + [x], s.reports[i]) {
      EarlierTwinSnoc(init, x, s.reports[i]);
    }
  }

  /** A file is reported and removed only when the survivor already
      recorded for its digest came earlier in the visit order and had the
      same full content; that survivor stays recorded to the end. */
  lemma RemovedOnlyAfterEarlierTwin(cands: seq<Path>, files0: Files, env: Env, i: nat)
    requires i < |Resolve(cands, Start(files0), env).reports|
    ensures var fin := Resolve(cands, Start(files0), env); var r := fin.reports[i];
      && r.duplicate in files0 && r.kept in files0
      && files0[r.duplicate] == files0[r.kept]
      && Sha1Of(files0[r.duplicate]) in fin.table && fin.table[Sha1Of(files0[r.duplicate])] == r.kept
      && exists a, b :: 0 <= a < b < |cands| && cands[a] == r.kept && cands[b] == r.duplicate
  {
    ResolveSound(cands, files0, env);
  }

  /** `files_by_full_hash` entries are never overwritten. */
  lemma {:induction false} TableNeverOverwritten(cands: seq<Path>, s: Resolution, env: Env)
    ensures forall d :: d in s.table ==> d in Resolve(cands, s, env).table && Resolve(cands, s, env).table[d] == s.table[d]
  {
    if cands != [] {
      TableNeverOverwritten(cands[..|cands| - 1], s, env);
    }
  }

  // ---------------------------------------------------------------------
  // Counter accounting

  /** The number of reports whose removal ended with `o`. */
  function Count(reports: seq<Report>, o: RemoveOutcome): nat
  {
    if reports == [] then 0
    else Count(reports[..|reports| - 1], o) + (if reports[|reports| - 1].outcome == o then 1 else 0)
  }

  lemma CountSnoc(reports: seq<Report>, r: Report, o: RemoveOutcome)
    ensures Count(reports + [r], o) == Count(reports, o) + (if r.outcome == o then 1 else 0)
  {
    assert (reports + [r])[..|reports|] == reports;
  }

  lemma RemoveOneCard(m: Files, t: Path)
    requires t in m
    ensures |m - {t}| + 1 == |m|
  {
    assert (m - {t}).Keys == m.Keys - {t};
    assert |m.Keys - {t}| == |m.Keys| - 1;
  }

  /** `removed` counts every report whose removal did not raise a fatal
      error, `skipped` those that raised PermissionError, at most the last
      report raised a fatal error, and each successful removal took exactly
      one file off the disk. */
  lemma {:induction false} ResolveCounts(cands: seq<Path>, files0: Files, env: Env)
    ensures var fin := Resolve(cands, Start(files0), env);
      && fin.removed == Count(fin.reports, Removed) + Count(fin.reports, PermissionDenied)
      && fin.skipped == Count(fin.reports, PermissionDenied)
      && Count(fin.reports, Failed) == (if fin.crashed.Some? then 1 else 0)
      && fin.files.Keys <= files0.Keys
      && |files0| == |fin.files| + Count(fin.reports, Removed)
  {
    if cands != [] {
      var init, x := cands[..|cands| - 1], cands[|cands| - 1];
      ResolveCounts(init, files0, env);
      var s := Resolve(init, Start(files0), env);
      if s.crashed.None? {
        match FileDigest(s.files, env, x, false)
        case None =>
        case Some(d) =>
          if d in s.table {
            var target := Unescape(x);
            var outcome := RemovalOutcome(s.files, env, target);
            var r := Report(x, s.table[d], outcome);
            CountSnoc(s.reports, r, Removed);
            CountSnoc(s.reports, r, PermissionDenied);
            CountSnoc(s.reports, r, Failed);
            if outcome == Removed {
              RemoveOneCard(s.files, target);
            }
          }
      }
    }
  }

  /** The finishing message's numbers: the files reported removed are the
      files that left the disk, and the permission errors are the reports
      whose removal raised PermissionError; so `skipped <= removed`. */
  lemma CounterAccounting(walked: seq<Path>, files: Files, env: Env)
    ensures var fin := Scan(walked, files, env);
      && fin.skipped <= fin.removed
      && fin.files.Keys <= files.Keys
      && fin.removed - fin.skipped == |files| - |fin.files| == Count(fin.reports, Removed)
      && fin.skipped == Count(fin.reports, PermissionDenied)
      && (fin.crashed.None? ==> StatusOf(fin) == Finished(|files| - |fin.files|, Count(fin.reports, PermissionDenied)))
  {
    var small := PrefixGroups(Eligible(SizeGroups(walked, files, env)), files, env);
    ResolveCounts(Eligible(small), files, env);
  }

  // ---------------------------------------------------------------------
  // Trivial input

  /** With nothing walked, or no two files of one size, nothing is hashed
      in full, nothing is removed and both counters stay 0. */
  lemma NothingSharedRemovesNothing(walked: seq<Path>, files: Files, env: Env)
    requires walked == [] || forall k :: k in SizeGroups(walked, files, env).groups ==> |SizeGroups(walked, files, env).groups[k]| < 2
    ensures Scan(walked, files, env) == Start(files)
    ensures StatusOf(Scan(walked, files, env)) == Finished(0, 0)
  {
    var sizes := SizeGroups(walked, files, env);
    assert walked == [] ==> sizes.groups == map[];
    assert walked != [] ==> forall k :: k in SizeGroups(walked, files, env).groups ==> |SizeGroups(walked, files, env).groups[k]| < 2;
    NoSharedGroupVisitsNothing(sizes);
    var small := PrefixGroups(Eligible(sizes), files, env);
    assert small == Empty();
    assert Eligible(small) == [];
  }

  // ---------------------------------------------------------------------
  // Survivor safety

  /** Every recorded survivor is a visited file still on disk, every
      report names a visited file, and no removal was aimed at a recorded
      survivor. */
  ghost predicate Safe(s: Resolution, cands: seq<Path>)
  {
    && (forall d :: d in s.table ==> s.table[d] in cands && s.table[d] in s.files)
    && (forall i :: 0 <= i < |s.reports| ==> s.reports[i].duplicate in cands)
    && (forall i, d :: 0 <= i < |s.reports| && d in s.table ==> Unescape(s.reports[i].duplicate) != s.table[d])
  }

  /** With distinct candidates and no path that the backslash replacement
      rewrites, every recorded survivor is still on disk at the end and no
      removal was aimed at one. */
  lemma {:induction false} ResolveKeepsSurvivors(cands: seq<Path>, files0: Files, env: Env)
    requires Distinct(cands)
    requires forall p :: p in cands ==> !HasDoubleBackslash(p)
    ensures Safe(Resolve(cands, Start(files0), env), cands)
  {
    if cands != [] {
      var init, x := cands[..|cands| - 1], cands[|cands| - 1];
      assert cands == init + [x];
      DistinctSnoc(init, x);
      ResolveKeepsSurvivors(init, files0, env);
      var s := Resolve(init, Start(files0), env);
      if s.crashed.None? {
        SafeStep(s, init, x, env);
      }
    }
  }

  /** Visiting a candidate not visited before, whose path the backslash
      replacement leaves alone, keeps `Safe`. */
  lemma SafeStep(s: Resolution, init: seq<Path>, x: Path, env: Env)
    requires Safe(s, init) && x !in init
    requires forall p :: p in init + [x] ==> !HasDoubleBackslash(p)
    ensures Safe(ResolveStep(s, x, env), init + [x])
  {
    var cands := init + [x];
    var fin := ResolveStep(s, x, env);
    assert Unescape(x) == x;
    match FileDigest(s.files, env, x, false)
    case None =>
    case Some(d) =>
      if d in s.table {
        var outcome := RemovalOutcome(s.files, env, x);
        assert fin.table == s.table;
        assert fin.files == AfterRemoval(s.files, x, outcome);
        assert fin.reports == s.reports + [Report(x, s.table[d], outcome)];
        forall d' | d' in fin.table ensures fin.table[d'] in fin.files {
          assert s.table[d'] in init;
        }
      } else {
        assert fin.table == s.table[d := x] && fin.files == s.files && fin.reports == s.reports;
        forall i | 0 <= i < |fin.reports| ensures Unescape(fin.reports[i].duplicate) != x {
          assert s.reports[i].duplicate in init;
          assert Unescape(s.reports[i].duplicate) == s.reports[i].duplicate;
        }
      }
  }

  /** The same for the whole scan, assuming the realpaths appended to
      `files_by_size` are distinct. */
  lemma SurvivorsNeverRemoved(walked: seq<Path>, files: Files, env: Env)
    requires Distinct(Discovered(walked, files, env))
    requires forall p :: p in Discovered(walked, files, env) ==> !HasDoubleBackslash(p)
    ensures var fin := Scan(walked, files, env);
      && (forall d :: d in fin.table ==> fin.table[d] in fin.files)
      && (forall i, d :: 0 <= i < |fin.reports| && d in fin.table ==> Unescape(fin.reports[i].duplicate) != fin.table[d])
  {
    var sizes := SizeGroups(walked, files, env);
    SizeGroupsDistinct(walked, files, env);
    EligibleDistinct(sizes);
    PrefixGroupsDistinct(Eligible(sizes), files, env);
    var small := PrefixGroups(Eligible(sizes), files, env);
    EligibleDistinct(small);
    forall p | p in Eligible(small) ensures !HasDoubleBackslash(p) {
      StageGating(walked, files, env, p);
    }
    ResolveKeepsSurvivors(Eligible(small), files, env);
    assert Safe(Scan(walked, files, env), Eligible(small));
  }
  // ---------------------------------------------------------------------
  // Removals and completeness

  /** Every file that left the disk was the target of a reported removal
      that succeeded. */
  ghost predicate LeftOnlyByReport(s: Resolution, files0: Files)
  {
    forall p :: p in files0 && p !in s.files ==>
      exists i :: 0 <= i < |s.reports| && s.reports[i].outcome == Removed && Unescape(s.reports[i].duplicate) == p
  }

  lemma {:induction false} ResolveRemovesOnlyReported(cands: seq<Path>, files0: Files, env: Env)
    ensures LeftOnlyByReport(Resolve(cands, Start(files0), env), files0)
  {
    if cands != [] {
      var init, x := cands[..|cands| - 1], cands[|cands| - 1];
      ResolveRemovesOnlyReported(init, files0, env);
      var s := Resolve(init, Start(files0), env);
      var fin := Resolve(cands, Start(files0), env);
      if s.crashed.None? {
        forall p | p in files0 && p !in fin.files
          ensures exists i :: 0 <= i < |fin.reports| && fin.reports[i].outcome == Removed && Unescape(fin.reports[i].duplicate) == p
        {
          if p in s.files {
            assert fin.reports[|s.reports|].outcome == Removed && Unescape(fin.reports[|s.reports|].duplicate) == p;
          } else {
            var i :| 0 <= i < |s.reports| && s.reports[i].outcome == Removed && Unescape(s.reports[i].duplicate) == p;
            assert fin.reports[i] == s.reports[i];
          }
        }
      }
    }
  }

  /** Every reported removal that succeeded took its target, a file present
      at the start, off the disk for good. */
  ghost predicate ReportedRemovalsLeft(s: Resolution, files0: Files)
  {
    forall i :: 0 <= i < |s.reports| && s.reports[i].outcome == Removed ==>
      Unescape(s.reports[i].duplicate) in files0 && Unescape(s.reports[i].duplicate) !in s.files
  }

  lemma {:induction false} ResolveReportedRemovalsLeft(cands: seq<Path>, files0: Files, env: Env)
    ensures ReportedRemovalsLeft(Resolve(cands, Start(files0), env), files0)
  {
    if cands != [] {
      var init, x := cands[..|cands| - 1], cands[|cands| - 1];
      ResolveReportedRemovalsLeft(init, files0, env);
      ResolveCounts(init, files0, env);
      var s := Resolve(init, Start(files0), env);
      if s.crashed.None? {
        ReportedRemovalsLeftStep(s, x, files0, env);
      }
    }
  }

  lemma ReportedRemovalsLeftStep(s: Resolution, x: Path, files0: Files, env: Env)
    requires ReportedRemovalsLeft(s, files0) && s.files.Keys <= files0.Keys
    ensures ReportedRemovalsLeft(ResolveStep(s, x, env), files0)
  {
    var r := ResolveStep(s, x, env);
    forall i | 0 <= i < |r.reports| && r.reports[i].outcome == Removed
      ensures Unescape(r.reports[i].duplicate) in files0 && Unescape(r.reports[i].duplicate) !in r.files
    {
      if i < |s.reports| {
        assert r.reports[i] == s.reports[i];
      }
    }
  }

  /** `x` was visited in the full-hash stage: recorded as a survivor or
      reported as a duplicate. */
  ghost predicate Handled(s: Resolution, x: Path)
  {
    (exists d :: d in s.table && s.table[d] == x) || (exists i :: 0 <= i < |s.reports| && s.reports[i].duplicate == x)
  }

  /** A visited file stays visited after any later step. */
  lemma HandledStep(s: Resolution, x: Path, y: Path, env: Env)
    requires Handled(s, x)
    ensures Handled(ResolveStep(s, y, env), x)
  {
    var r := ResolveStep(s, y, env);
    if exists d :: d in s.table && s.table[d] == x {
      var d :| d in s.table && s.table[d] == x;
      assert d in r.table && r.table[d] == x;
    } else {
      var i :| 0 <= i < |s.reports| && s.reports[i].duplicate == x;
      assert r.reports[i] == s.reports[i];
    }
  }

  /** With no path rewritten by the backslash replacement, a scan that
      ends without a fatal error has visited every candidate that was
      readable at the start; a repeated candidate counts from its first
      visit. */
  lemma {:induction false} ResolveVisitsAll(cands: seq<Path>, files0: Files, env: Env)
    requires forall p :: p in cands ==> !HasDoubleBackslash(p)
    ensures Resolve(cands, Start(files0), env).crashed.None? ==>
      forall x :: x in cands && ReadBytes(files0, env, x).Some? ==> Handled(Resolve(cands, Start(files0), env), x)
  {
    if cands != [] {
      var init, x := cands[..|cands| - 1], cands[|cands| - 1];
      assert cands == init + [x];
      ResolveVisitsAll(init, files0, env);
      var s := Resolve(init, Start(files0), env);
      var fin := Resolve(cands, Start(files0), env);
      if s.crashed.None? {
        assert fin == ResolveStep(s, x, env);
        forall y | y in init && ReadBytes(files0, env, y).Some? ensures Handled(fin, y) {
          HandledStep(s, y, x, env);
        }
        if ReadBytes(files0, env, x).Some? && x !in init {
          NotYetVisitedOnDisk(init, files0, env, x);
          VisitHandles(s, x, env);
        }
      }
    }
  }

  /** A readable file not yet visited is still on disk. */
  lemma NotYetVisitedOnDisk(init: seq<Path>, files0: Files, env: Env, x: Path)
    requires x !in init && x in files0
    requires forall p :: p in init ==> !HasDoubleBackslash(p)
    ensures x in Resolve(init, Start(files0), env).files
  {
    var s := Resolve(init, Start(files0), env);
    forall i | 0 <= i < |s.reports| ensures Unescape(s.reports[i].duplicate) != x {
      RemovedOnlyAfterEarlierTwin(init, files0, env, i);
      var a, b :| 0 <= a < b < |init| && init[a] == s.reports[i].kept && init[b] == s.reports[i].duplicate;
      assert s.reports[i].duplicate in init;
    }
    ResolveRemovesOnlyReported(init, files0, env);
  }

  /** Visiting a readable file records it or reports it. */
  lemma VisitHandles(s: Resolution, x: Path, env: Env)
    requires ReadBytes(s.files, env, x).Some?
    ensures Handled(ResolveStep(s, x, env), x)
  {
    var r := ResolveStep(s, x, env);
    var d := FileDigest(s.files, env, x, false).value;
    if d in s.table {
      assert r.reports[|s.reports|].duplicate == x;
    } else {
      assert r.table[d] == x;
    }
  }

  /** A readable candidate that occurs twice or more is reported as a
      duplicate by a scan without a fatal error: its first visit records
      or reports it, and a later one finds its own digest. */
  lemma {:induction false} RepeatedCandidateReported(cands: seq<Path>, files0: Files, env: Env, p: Path)
    requires ReadBytes(files0, env, p).Some? && multiset(cands)[p] >= 2
    requires forall q :: q in cands ==> !HasDoubleBackslash(q)
    requires Resolve(cands, Start(files0), env).crashed.None?
    ensures exists i :: 0 <= i < |Resolve(cands, Start(files0), env).reports| && Resolve(cands, Start(files0), env).reports[i].duplicate == p
  {
    var init, x := cands[..|cands| - 1], cands[|cands| - 1];
    assert cands == init + [x];
    assert multiset(cands) == multiset(init) + multiset{x};
    var s := Resolve(init, Start(files0), env);
    var fin := Resolve(cands, Start(files0), env);
    assert fin == ResolveStep(s, x, env);
    if multiset(init)[p] >= 2 {
      RepeatedCandidateReported(init, files0, env, p);
      var j :| 0 <= j < |s.reports| && s.reports[j].duplicate == p;
      assert fin.reports[j] == s.reports[j];
    } else {
      assert x == p && p in init;
      LaterVisitReported(init, files0, env, p);
    }
  }

  /** Visiting again a readable candidate visited before reports it as a
      duplicate, now or earlier. */
  lemma LaterVisitReported(init: seq<Path>, files0: Files, env: Env, p: Path)
    requires ReadBytes(files0, env, p).Some? && p in init
    requires forall q :: q in init ==> !HasDoubleBackslash(q)
    requires Resolve(init, Start(files0), env).crashed.None?
    ensures exists i :: 0 <= i < |ResolveStep(Resolve(init, Start(files0), env), p, env).reports|
                     && ResolveStep(Resolve(init, Start(files0), env), p, env).reports[i].duplicate == p
  {
    var s := Resolve(init, Start(files0), env);
    var fin := ResolveStep(s, p, env);
    ResolveVisitsAll(init, files0, env);
    assert Handled(s, p);
    var j: nat;
    if p !in s.files {
      ResolveRemovesOnlyReported(init, files0, env);
      j :| j < |s.reports| && s.reports[j].outcome == Removed && Unescape(s.reports[j].duplicate) == p;
      RemovedOnlyAfterEarlierTwin(init, files0, env, j);
      var a, b :| 0 <= a < b < |init| && init[a] == s.reports[j].kept && init[b] == s.reports[j].duplicate;
      assert s.reports[j].duplicate in init;
    } else if exists i :: 0 <= i < |s.reports| && s.reports[i].duplicate == p {
      j :| j < |s.reports| && s.reports[j].duplicate == p;
    } else {
      var d :| d in s.table && s.table[d] == p;
      ResolveSound(init, files0, env);
      assert FileDigest(s.files, env, p, false) == Some(d);
      j := |s.reports|;
    }
    assert fin.reports[j].duplicate == p;
  }

  lemma TwoMembers(s: seq<Path>, p: Path, q: Path)
    requires p in s && q in s && p != q
    ensures |s| >= 2
  {
  }

  /** If two different files appended to `files_by_size` have the same
      content and could be read, a scan without a fatal error reports at
      least one of them as a duplicate: they cannot both be survivors. */
  lemma EqualContentPairReported(walked: seq<Path>, files: Files, env: Env, p: Path, q: Path)
    requires forall x :: x in Discovered(walked, files, env) ==> !HasDoubleBackslash(x)
    requires p in Discovered(walked, files, env) && q in Discovered(walked, files, env) && p != q
    requires ReadBytes(files, env, p).Some? && ReadBytes(files, env, q).Some?
    requires Scan(walked, files, env).crashed.None?
    ensures files[p] == files[q] ==>
      exists i :: 0 <= i < |Scan(walked, files, env).reports| && Scan(walked, files, env).reports[i].duplicate in {p, q}
  {
    if files[p] == files[q] {
      EqualContentPairReportedCore(walked, files, env, p, q);
    }
  }

  lemma EqualContentPairReportedCore(walked: seq<Path>, files: Files, env: Env, p: Path, q: Path)
    requires forall x :: x in Discovered(walked, files, env) ==> !HasDoubleBackslash(x)
    requires p in Discovered(walked, files, env) && q in Discovered(walked, files, env) && p != q
    requires ReadBytes(files, env, p).Some? && ReadBytes(files, env, q).Some? && files[p] == files[q]
    requires Scan(walked, files, env).crashed.None?
    ensures exists i :: 0 <= i < |Scan(walked, files, env).reports| && Scan(walked, files, env).reports[i].duplicate in {p, q}
  {
    var sizes := SizeGroups(walked, files, env);
    var k := |files[p]|;
    assert k in sizes.groups && p in sizes.groups[k] && q in sizes.groups[k] by {
      SizeGroupsMembers(walked, files, env);
      assert HasEntry(sizes, p) && HasEntry(sizes, q);
      SizeGroupsKeys(walked, files, env);
    }
    TwoMembers(sizes.groups[k], p, q);
    EligibleMembers(sizes, p);
    EligibleMembers(sizes, q);
    var small := PrefixGroups(Eligible(sizes), files, env);
    var d := Sha1Of(Prefix(files[p]));
    assert d in small.groups && p in small.groups[d] && q in small.groups[d] by {
      PrefixGroupsMembers(Eligible(sizes), files, env);
      PrefixGroupsKeys(Eligible(sizes), files, env);
      assert HasEntry(small, p) && HasEntry(small, q);
      var dp :| dp in small.groups && p in small.groups[dp];
      var dq :| dq in small.groups && q in small.groups[dq];
      assert FileDigest(files, env, p, true) == Some(dp) && FileDigest(files, env, q, true) == Some(dq);
      assert dp == d && dq == d;
    }
    TwoMembers(small.groups[d], p, q);
    EligibleMembers(small, p);
    EligibleMembers(small, q);
    forall x | x in Eligible(small) ensures !HasDoubleBackslash(x) {
      StageGating(walked, files, env, x);
    }
    ResolveVisitsAll(Eligible(small), files, env);
    ResolveSound(Eligible(small), files, env);
    var fin := Scan(walked, files, env);
    assert Handled(fin, p) && Handled(fin, q);
  }

  /** A file that left the disk was a size twin and a prefix twin of
      another file: neither a file of unique size nor one of unique prefix
      digest is ever removed. */
  lemma RemovedFilesPassedBothStages(walked: seq<Path>, files: Files, env: Env, p: Path)
    requires forall x :: x in Discovered(walked, files, env) ==> !HasDoubleBackslash(x)
    requires p in files && p !in Scan(walked, files, env).files
    ensures p in Eligible(PrefixGroups(Eligible(SizeGroups(walked, files, env)), files, env))
    ensures var sizes := SizeGroups(walked, files, env);
      |files[p]| in sizes.groups && |sizes.groups[|files[p]|]| >= 2 && p in sizes.groups[|files[p]|]
    ensures var small := PrefixGroups(Eligible(SizeGroups(walked, files, env)), files, env);
      var d := Sha1Of(Prefix(files[p])); d in small.groups && |small.groups[d]| >= 2 && p in small.groups[d]
  {
    var cands := Eligible(PrefixGroups(Eligible(SizeGroups(walked, files, env)), files, env));
    var fin := Resolve(cands, Start(files), env);
    ResolveRemovesOnlyReported(cands, files, env);
    var i :| 0 <= i < |fin.reports| && fin.reports[i].outcome == Removed && Unescape(fin.reports[i].duplicate) == p;
    RemovedOnlyAfterEarlierTwin(cands, files, env, i);
    var dup := fin.reports[i].duplicate;
    assert dup in cands;
    StageGating(walked, files, env, dup);
    assert dup == p;
    StageGating(walked, files, env, p);
  }

  /** With distinct candidates, every report pairs two different
      candidates with the same original content. */
  lemma ResolvePairsAreTwins(cands: seq<Path>, files0: Files, env: Env)
    requires Distinct(cands)
    ensures forall r :: r in Resolve(cands, Start(files0), env).reports ==>
      && r.duplicate != r.kept && r.duplicate in cands && r.kept in cands
      && r.duplicate in files0 && r.kept in files0 && files0[r.duplicate] == files0[r.kept]
  {
    var fin := Resolve(cands, Start(files0), env);
    forall r | r in fin.reports
      ensures r.duplicate != r.kept && r.duplicate in cands && r.kept in cands
      ensures r.duplicate in files0 && r.kept in files0 && files0[r.duplicate] == files0[r.kept]
    {
      var i :| 0 <= i < |fin.reports| && fin.reports[i] == r;
      RemovedOnlyAfterEarlierTwin(cands, files0, env, i);
    }
  }

  /** With distinct realpaths, every report pairs two different files that
      were appended to `files_by_size`, could both be read, and had the same
      content. */
  lemma ReportedPairsAreTwins(walked: seq<Path>, files: Files, env: Env)
    requires Distinct(Discovered(walked, files, env))
    ensures forall r :: r in Scan(walked, files, env).reports ==>
      && r.duplicate != r.kept
      && r.duplicate in Discovered(walked, files, env) && r.kept in Discovered(walked, files, env)
      && ReadBytes(files, env, r.duplicate).Some? && ReadBytes(files, env, r.kept).Some?
      && files[r.duplicate] == files[r.kept]
  {
    var sizes := SizeGroups(walked, files, env);
    var small := PrefixGroups(Eligible(sizes), files, env);
    assert Distinct(Eligible(small)) by {
      SizeGroupsDistinct(walked, files, env);
      EligibleDistinct(sizes);
      PrefixGroupsDistinct(Eligible(sizes), files, env);
      EligibleDistinct(small);
    }
    ResolvePairsAreTwins(Eligible(small), files, env);
    forall p | p in Eligible(small) ensures p in Discovered(walked, files, env) && ReadBytes(files, env, p).Some? {
      StageGating(walked, files, env, p);
    }
  }

  /** A file whose content no other readable file appended to
      `files_by_size` shares is never reported, as duplicate or as
      survivor, and stays on disk. */
  lemma UniqueContentKept(walked: seq<Path>, files: Files, env: Env, c: Path)
    requires Distinct(Discovered(walked, files, env))
    requires forall x :: x in Discovered(walked, files, env) ==> !HasDoubleBackslash(x)
    requires c in files
    requires forall q :: q in Discovered(walked, files, env) && q != c && ReadBytes(files, env, q).Some? ==> files[q] != files[c]
    ensures forall r :: r in Scan(walked, files, env).reports ==> r.duplicate != c && r.kept != c
    ensures c in Scan(walked, files, env).files
  {
    ReportedPairsAreTwins(walked, files, env);
    var cands := Eligible(PrefixGroups(Eligible(SizeGroups(walked, files, env)), files, env));
    var fin := Resolve(cands, Start(files), env);
    ResolveRemovesOnlyReported(cands, files, env);
    assert forall i :: 0 <= i < |fin.reports| ==> fin.reports[i] in fin.reports;
    assert forall i :: 0 <= i < |fin.reports| ==> Unescape(fin.reports[i].duplicate) == fin.reports[i].duplicate;
  }

  /** Dropping files keeps the walk's realpaths a subset, and a distinct
      one when they were distinct. */
  lemma {:induction false} DiscoveredShrinks(walked: seq<Path>, f1: Files, f2: Files, env: Env)
    requires f2.Keys <= f1.Keys
    ensures forall p :: p in Discovered(walked, f2, env) ==> p in Discovered(walked, f1, env)
    ensures Distinct(Discovered(walked, f1, env)) ==> Distinct(Discovered(walked, f2, env))
    ensures forall p :: p in f2 ==> multiset(Discovered(walked, f2, env))[p] == multiset(Discovered(walked, f1, env))[p]
  {
    if walked != [] {
      var init, w := walked[..|walked| - 1], walked[|walked| - 1];
      assert walked == init + [w];
      DiscoveredSnoc(init, w, f1, env);
      DiscoveredSnoc(init, w, f2, env);
      match Realpath(env, w)
      case None =>
        DiscoveredShrinks(init, f1, f2, env);
      case Some(rp) =>
        if rp in f1 {
          DistinctSnoc(Discovered(init, f1, env), rp);
          DiscoveredShrinks(init, f1, f2, env);
          DistinctSnoc(Discovered(init, f2, env), rp);
        } else {
          DiscoveredShrinks(init, f1, f2, env);
        }
    }
  }

  lemma {:induction false} CountZero(reports: seq<Report>, o: RemoveOutcome)
    requires Count(reports, o) == 0
    ensures forall r :: r in reports ==> r.outcome != o
  {
    if reports != [] {
      var init := reports[..|reports| - 1];
      CountZero(init, o);
      assert reports == init + [reports[|reports| - 1]];
    }
  }

  // ---------------------------------------------------------------------
  // Idempotence

  /** No two different readable files of the walk have the same content. */
  ghost predicate NoTwins(walked: seq<Path>, files: Files, env: Env)
  {
    forall p, q ::
      (p in Discovered(walked, files, env) && q in Discovered(walked, files, env) && p != q &&
       ReadBytes(files, env, p).Some? && ReadBytes(files, env, q).Some?) ==> files[p] != files[q]
  }

  /** After a run that ended normally with no PermissionError, no two
      different readable files of the walk share their content any more. */
  lemma NoTwinsLeft(walked: seq<Path>, files: Files, env: Env)
    requires forall x :: x in Discovered(walked, files, env) ==> !HasDoubleBackslash(x)
    requires Scan(walked, files, env).crashed.None? && Scan(walked, files, env).skipped == 0
    ensures NoTwins(walked, Scan(walked, files, env).files, env)
  {
    var fin := Scan(walked, files, env);
    var left := fin.files;
    var cands := Eligible(PrefixGroups(Eligible(SizeGroups(walked, files, env)), files, env));
    assert SubFiles(left, files) by {
      ResolveSound(cands, files, env);
    }
    DiscoveredShrinks(walked, files, left, env);
    DuplicatesGone(walked, files, env);
    forall p, q | p in Discovered(walked, left, env) && q in Discovered(walked, left, env) && p != q
                  && ReadBytes(left, env, p).Some? && ReadBytes(left, env, q).Some?
      ensures left[p] != left[q]
    {
      EqualContentPairReported(walked, files, env, p, q);
    }
  }

  /** After a run that ended normally with no PermissionError, no reported
      duplicate is left on disk. */
  lemma DuplicatesGone(walked: seq<Path>, files: Files, env: Env)
    requires forall x :: x in Discovered(walked, files, env) ==> !HasDoubleBackslash(x)
    requires Scan(walked, files, env).crashed.None? && Scan(walked, files, env).skipped == 0
    ensures forall i :: 0 <= i < |Scan(walked, files, env).reports| ==>
      Scan(walked, files, env).reports[i].duplicate !in Scan(walked, files, env).files
  {
    var fin := Scan(walked, files, env);
    var cands := Eligible(PrefixGroups(Eligible(SizeGroups(walked, files, env)), files, env));
    assert forall i :: 0 <= i < |fin.reports| ==> fin.reports[i] in fin.reports;
    assert forall r :: r in fin.reports ==> r.outcome == Removed by {
      ResolveCounts(cands, files, env);
      CountZero(fin.reports, PermissionDenied);
      CountZero(fin.reports, Failed);
    }
    forall i | 0 <= i < |fin.reports| ensures Unescape(fin.reports[i].duplicate) == fin.reports[i].duplicate {
      RemovedOnlyAfterEarlierTwin(cands, files, env, i);
      var a, b :| 0 <= a < b < |cands| && cands[a] == fin.reports[i].kept && cands[b] == fin.reports[i].duplicate;
      StageGating(walked, files, env, cands[b]);
    }
    ResolveReportedRemovalsLeft(cands, files, env);
  }

  /** After a run that ended normally with no PermissionError, no readable
      file whose realpath the walk found twice or more is left on disk. */
  lemma RepeatedRealpathRemoved(walked: seq<Path>, files: Files, env: Env)
    requires forall x :: x in Discovered(walked, files, env) ==> !HasDoubleBackslash(x)
    requires Scan(walked, files, env).crashed.None? && Scan(walked, files, env).skipped == 0
    ensures forall p :: ReadBytes(files, env, p).Some? && multiset(Discovered(walked, files, env))[p] >= 2 ==>
      p !in Scan(walked, files, env).files
  {
    var fin := Scan(walked, files, env);
    var cands := Eligible(PrefixGroups(Eligible(SizeGroups(walked, files, env)), files, env));
    forall q | q in cands ensures !HasDoubleBackslash(q) {
      StageGating(walked, files, env, q);
    }
    assert forall r :: r in fin.reports ==> r.outcome == Removed by {
      ResolveCounts(cands, files, env);
      CountZero(fin.reports, PermissionDenied);
      CountZero(fin.reports, Failed);
    }
    ResolveReportedRemovalsLeft(cands, files, env);
    forall p | ReadBytes(files, env, p).Some? && multiset(Discovered(walked, files, env))[p] >= 2
      ensures p !in fin.files
    {
      RepeatedThroughStages(walked, files, env, p);
      RepeatedCandidateReported(cands, files, env, p);
      var i :| 0 <= i < |fin.reports| && fin.reports[i].duplicate == p;
      assert fin.reports[i] in fin.reports;
      assert p in Discovered(walked, files, env);
    }
  }

  /** Every report pairs two readable files of the walk with the same
      content; a file reported as its own duplicate was found twice or
      more. */
  lemma ReportsPairTwinsOrRepeats(walked: seq<Path>, files: Files, env: Env)
    ensures forall r :: r in Scan(walked, files, env).reports ==>
      && r.duplicate in Discovered(walked, files, env) && r.kept in Discovered(walked, files, env)
      && ReadBytes(files, env, r.duplicate).Some? && ReadBytes(files, env, r.kept).Some?
      && files[r.duplicate] == files[r.kept]
      && (r.duplicate == r.kept ==> multiset(Discovered(walked, files, env))[r.duplicate] >= 2)
  {
    var fin := Scan(walked, files, env);
    var cands := Eligible(PrefixGroups(Eligible(SizeGroups(walked, files, env)), files, env));
    forall r | r in fin.reports
      ensures r.duplicate in Discovered(walked, files, env) && r.kept in Discovered(walked, files, env)
      ensures ReadBytes(files, env, r.duplicate).Some? && ReadBytes(files, env, r.kept).Some?
      ensures files[r.duplicate] == files[r.kept]
      ensures r.duplicate == r.kept ==> multiset(Discovered(walked, files, env))[r.duplicate] >= 2
    {
      var i :| 0 <= i < |fin.reports| && fin.reports[i] == r;
      RemovedOnlyAfterEarlierTwin(cands, files, env, i);
      var a, b :| 0 <= a < b < |cands| && cands[a] == r.kept && cands[b] == r.duplicate;
      StageGating(walked, files, env, r.kept);
      StageGating(walked, files, env, r.duplicate);
      if r.duplicate == r.kept {
        TwiceCount(cands, a, b);
        RepeatedThroughStages(walked, files, env, r.duplicate);
      }
    }
  }

  /** When no two different readable files of the walk share their content
      and no readable realpath was found twice, the scan reports nothing,
      removes nothing and finishes with both counters 0. */
  lemma NoTwinsNoReports(walked: seq<Path>, files: Files, env: Env)
    requires forall p :: ReadBytes(files, env, p).Some? ==> multiset(Discovered(walked, files, env))[p] < 2
    requires NoTwins(walked, files, env)
    ensures var fin := Scan(walked, files, env);
      fin.reports == [] && fin.files == files && StatusOf(fin) == Finished(0, 0)
  {
    var fin := Scan(walked, files, env);
    assert forall i :: 0 <= i < |fin.reports| ==> fin.reports[i] in fin.reports;
    ReportsPairTwinsOrRepeats(walked, files, env);
    var cands := Eligible(PrefixGroups(Eligible(SizeGroups(walked, files, env)), files, env));
    ResolveCounts(cands, files, env);
    assert forall r :: r !in fin.reports;
    assert fin.reports == [];
    ResolveRemovesOnlyReported(cands, files, env);
    ResolveSound(cands, files, env);
    assert fin.files.Keys == files.Keys;
  }

  /** Idempotence: running the scan a second time over the same walk, on
      the files the first run left, reports and removes nothing, provided
      the first run ended normally and no removal raised PermissionError. */
  lemma SecondRunRemovesNothing(walked: seq<Path>, files: Files, env: Env)
    requires forall x :: x in Discovered(walked, files, env) ==> !HasDoubleBackslash(x)
    requires Scan(walked, files, env).crashed.None? && Scan(walked, files, env).skipped == 0
    ensures var again := Scan(walked, Scan(walked, files, env).files, env);
      again.reports == [] && again.files == Scan(walked, files, env).files && StatusOf(again) == Finished(0, 0)
  {
    var left := Scan(walked, files, env).files;
    CounterAccounting(walked, files, env);
    DiscoveredShrinks(walked, files, left, env);
    NoTwinsLeft(walked, files, env);
    RepeatedRealpathRemoved(walked, files, env);
    forall p | ReadBytes(left, env, p).Some? ensures multiset(Discovered(walked, left, env))[p] < 2 {
      assert ReadBytes(files, env, p).Some?;
    }
    NoTwinsNoReports(walked, left, env);
  }

  // ---------------------------------------------------------------------
  // Two copies of one content

  /** `a` and `b` are different readable files of the walk with the same
      content, and no other readable file of the walk shares it. */
  ghost predicate TwinPair(walked: seq<Path>, files: Files, env: Env, a: Path, b: Path)
  {
    && a in Discovered(walked, files, env) && b in Discovered(walked, files, env) && a != b
    && ReadBytes(files, env, a).Some? && ReadBytes(files, env, b).Some? && files[a] == files[b]
    && forall q :: q in Discovered(walked, files, env) && ReadBytes(files, env, q).Some? && files[q] == files[a] ==> q == a || q == b
  }

  /** Of two copies of one content, exactly one leaves the disk when the
      scan ends normally and no removal raised PermissionError; every report
      about that content names one copy as duplicate and the other as
      survivor. */
  lemma TwinPairOneRemoved(walked: seq<Path>, files: Files, env: Env, a: Path, b: Path)
    requires Distinct(Discovered(walked, files, env))
    requires forall x :: x in Discovered(walked, files, env) ==> !HasDoubleBackslash(x)
    requires Scan(walked, files, env).crashed.None? && Scan(walked, files, env).skipped == 0
    requires TwinPair(walked, files, env, a, b)
    ensures (a in Scan(walked, files, env).files) != (b in Scan(walked, files, env).files)
    ensures forall r :: r in Scan(walked, files, env).reports && r.duplicate in {a, b} ==> r.kept in {a, b} && r.kept != r.duplicate
  {
    var fin := Scan(walked, files, env);
    var cands := Eligible(PrefixGroups(Eligible(SizeGroups(walked, files, env)), files, env));
    EqualContentPairReported(walked, files, env, a, b);
    var i :| 0 <= i < |fin.reports| && fin.reports[i].duplicate in {a, b};
    var r := fin.reports[i];
    assert r.kept in {a, b} && r.kept != r.duplicate by {
      ReportedPairsAreTwins(walked, files, env);
      assert r in fin.reports;
    }
    assert r.kept in fin.files by {
      ResolveSound(cands, files, env);
      SurvivorsNeverRemoved(walked, files, env);
      assert Sha1Of(files[r.duplicate]) in fin.table && fin.table[Sha1Of(files[r.duplicate])] == r.kept;
    }
    assert r.duplicate !in fin.files by {
      DuplicatesGone(walked, files, env);
    }
    forall r' | r' in fin.reports && r'.duplicate in {a, b} ensures r'.kept in {a, b} && r'.kept != r'.duplicate {
      ReportedPairsAreTwins(walked, files, env);
    }
  }

  /** The two-copies scenario: when the only content shared by two readable
      files of the walk is that of `a` and `b`, the scan removes exactly one
      file and finishes reporting 1 file removed and 0 permission errors. */
  lemma SingleTwinPairFinishesWithOne(walked: seq<Path>, files: Files, env: Env, a: Path, b: Path)
    requires Distinct(Discovered(walked, files, env))
    requires forall x :: x in Discovered(walked, files, env) ==> !HasDoubleBackslash(x)
    requires Scan(walked, files, env).crashed.None? && Scan(walked, files, env).skipped == 0
    requires TwinPair(walked, files, env, a, b)
    requires forall p, q :: (p in Discovered(walked, files, env) && q in Discovered(walked, files, env) && p != q &&
      ReadBytes(files, env, p).Some? && ReadBytes(files, env, q).Some? && files[p] == files[q]) ==> p in {a, b}
    ensures var fin := Scan(walked, files, env);
      (a in fin.files) != (b in fin.files) && |files| - |fin.files| == 1 && StatusOf(fin) == Finished(1, 0)
  {
    var fin := Scan(walked, files, env);
    var cands := Eligible(PrefixGroups(Eligible(SizeGroups(walked, files, env)), files, env));
    TwinPairOneRemoved(walked, files, env, a, b);
    var gone := if a in fin.files then b else a;
    assert forall x :: x in files && x !in fin.files ==> x == gone by {
      OnlyTwinsLeave(walked, files, env, a, b);
    }
    assert |files| - |fin.files| == 1 by {
      CounterAccounting(walked, files, env);
      OneKeyLess(files, fin.files, gone);
    }
    CounterAccounting(walked, files, env);
  }

  /** When only `a` and `b` share a content, no other file leaves the
      disk. */
  lemma OnlyTwinsLeave(walked: seq<Path>, files: Files, env: Env, a: Path, b: Path)
    requires Distinct(Discovered(walked, files, env))
    requires forall p, q :: (p in Discovered(walked, files, env) && q in Discovered(walked, files, env) && p != q &&
      ReadBytes(files, env, p).Some? && ReadBytes(files, env, q).Some? && files[p] == files[q]) ==> p in {a, b}
    requires forall x :: x in Discovered(walked, files, env) ==> !HasDoubleBackslash(x)
    ensures forall x :: x in files && x !in Scan(walked, files, env).files ==> x in {a, b}
  {
    var fin := Scan(walked, files, env);
    var cands := Eligible(PrefixGroups(Eligible(SizeGroups(walked, files, env)), files, env));
    ResolveRemovesOnlyReported(cands, files, env);
    ReportedPairsAreTwins(walked, files, env);
    assert forall j :: 0 <= j < |fin.reports| ==> fin.reports[j] in fin.reports;
    assert forall j :: 0 <= j < |fin.reports| ==> Unescape(fin.reports[j].duplicate) == fin.reports[j].duplicate;
  }

  lemma OneKeyLess(files: Files, left: Files, gone: Path)
    requires left.Keys <= files.Keys && gone in files && gone !in left
    requires forall x :: x in files && x !in left ==> x == gone
    ensures |files| - |left| == 1
  {
    assert left.Keys == files.Keys - {gone};
    assert |files.Keys - {gone}| == |files.Keys| - 1;
  }
}
