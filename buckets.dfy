/** `defaultdict(list)` from keys to paths, as the cleaner builds it with
    `d[key].append(path)`: a key's list is created on its first append,
    and the dictionary iterates its keys in first-insertion order. */
module Buckets {
  import opened FileSystem

  datatype Buckets<K(!new)> = Buckets(keys: seq<K>, groups: map<K, seq<Path>>)

  /** The keys are listed once each, in insertion order, exactly the keys
      of the dictionary, and no list is empty. */
  ghost predicate Valid<K(!new)>(b: Buckets<K>)
  {
    && (forall i, j :: 0 <= i < j < |b.keys| ==> b.keys[i] != b.keys[j])
    && (forall i :: 0 <= i < |b.keys| ==> b.keys[i] in b.groups)
    && (forall k :: k in b.groups ==> k in b.keys)
    && (forall k :: k in b.groups ==> b.groups[k] != [])
  }

  predicate Distinct(s: seq<Path>)
  {
    forall i, j :: 0 <= i < j < |s| ==> s[i] != s[j]
  }

  lemma DistinctSnoc(s: seq<Path>, x: Path)
    ensures Distinct(s + [x]) <==> Distinct(s) && x !in s
  {
    if Distinct(s + [x]) {
      forall i, j | 0 <= i < j < |s| ensures s[i] != s[j] {
        assert s[i] == (s + [x])[i] && s[j] == (s + [x])[j];
      }
      forall i | 0 <= i < |s| ensures s[i] != x {
        assert s[i] == (s + [x])[i] && x == (s + [x])[|s|];
      }
    }
  }

  /** `p` is in one of the lists. */
  ghost predicate HasEntry<K(!new)>(b: Buckets<K>, p: Path)
  {
    exists k :: k in b.groups && p in b.groups[k]
  }

  /** No path is in two lists, or twice in one. */
  ghost predicate DistinctEntries<K(!new)>(b: Buckets<K>)
  {
    && (forall k :: k in b.groups ==> Distinct(b.groups[k]))
    && (forall p, k1, k2 :: k1 in b.groups && k2 in b.groups && p in b.groups[k1] && p in b.groups[k2] ==> k1 == k2)
  }

  function Empty<K(!new)>(): (b: Buckets<K>)
    ensures Valid(b) && DistinctEntries(b)
    ensures b.keys == [] && forall p :: !HasEntry(b, p)
  {
    Buckets([], map[])
  }

  /** `d[k].append(p)`. */
  function Append<K(!new)>(b: Buckets<K>, k: K, p: Path): (r: Buckets<K>)
    requires Valid(b)
    ensures Valid(r)
    ensures k in r.groups && r.groups[k] == (if k in b.groups then b.groups[k] else []) + [p]
    ensures forall k' :: k' != k ==> (k' in r.groups <==> k' in b.groups)
    ensures forall k' :: k' != k && k' in b.groups ==> r.groups[k'] == b.groups[k']
    ensures r.keys == if k in b.groups then b.keys else b.keys + [k]
  {
    if k in b.groups then Buckets(b.keys, b.groups[k := b.groups[k] + [p]])
    else Buckets(b.keys + [k], b.groups[k := [p]])
  }

  /** The list under `k`, or nothing when `k` has none yet. */
  function Group<K(!new)>(b: Buckets<K>, k: K): seq<Path>
  {
    if k in b.groups then b.groups[k] else []
  }

  /** Appending under `k` extends that key's list and no other. */
  lemma AppendGroup<K(!new)>(b: Buckets<K>, k: K, p: Path, k': K)
    requires Valid(b)
    ensures Group(Append(b, k, p), k') == if k' == k then Group(b, k) + [p] else Group(b, k')
  {
  }

  /** A path occurs in a list at most as often as the list is long. */
  lemma {:induction false} CountAtMostLength(s: seq<Path>, p: Path)
    ensures multiset(s)[p] <= |s|
  {
    if s != [] {
      CountAtMostLength(s[..|s| - 1], p);
      assert s == s[..|s| - 1] + [s[|s| - 1]];
    }
  }

  /** A path at two positions occurs at least twice. */
  lemma TwiceCount(s: seq<Path>, a: nat, b: nat)
    requires a < b < |s| && s[a] == s[b]
    ensures multiset(s)[s[a]] >= 2
  {
    assert s == s[..b] + [s[b]] + s[b + 1..];
    assert s[..b][a] == s[a];
  }

  /** Appending adds `p` to the entries and nothing else. */
  lemma AppendHasEntry<K(!new)>(b: Buckets<K>, k: K, p: Path)
    requires Valid(b)
    ensures forall q :: HasEntry(Append(b, k, p), q) <==> HasEntry(b, q) || q == p
  {
    var r := Append(b, k, p);
    forall q | HasEntry(r, q) ensures HasEntry(b, q) || q == p {
      var k' :| k' in r.groups && q in r.groups[k'];
      if k' != k { assert q in b.groups[k']; }
    }
    forall q | HasEntry(b, q) ensures HasEntry(r, q) {
      var k' :| k' in b.groups && q in b.groups[k'];
      assert q in r.groups[k'];
    }
    assert p in r.groups[k];
  }

  /** A path not yet present keeps the entries distinct. */
  lemma AppendDistinct<K(!new)>(b: Buckets<K>, k: K, p: Path)
    requires Valid(b) && DistinctEntries(b) && !HasEntry(b, p)
    ensures DistinctEntries(Append(b, k, p))
  {
    var r := Append(b, k, p);
    forall k1 | k1 in r.groups ensures Distinct(r.groups[k1]) {
      if k1 == k && k in b.groups {
        assert p !in b.groups[k];
      }
    }
    forall q, k1, k2 | k1 in r.groups && k2 in r.groups && q in r.groups[k1] && q in r.groups[k2]
      ensures k1 == k2
    {
      assert forall k' :: k' in b.groups ==> p !in b.groups[k'];
      assert q != p ==> q in b.groups[k1] && q in b.groups[k2];
    }
  }

  /** The list of the `d.values()` loop's group for key `k` when the loop
      goes on to it (two or more members), else nothing. */
  function Shared<K(!new)>(b: Buckets<K>, k: K): seq<Path>
  {
    if k in b.groups && |b.groups[k]| >= 2 then b.groups[k] else []
  }

  /** The paths an inner loop over `d.values()` visits in the first `n`
      groups, skipping every group of fewer than two. */
  function EligibleUpTo<K(!new)>(b: Buckets<K>, n: nat): seq<Path>
    requires n <= |b.keys|
  {
    if n == 0 then [] else EligibleUpTo(b, n - 1) + Shared(b, b.keys[n - 1])
  }

  /** The loop over the values goes on to group `i` when it has two or
      more members, and skips it otherwise. */
  lemma EligibleUpToNext<K(!new)>(b: Buckets<K>, i: nat)
    requires Valid(b) && i < |b.keys|
    ensures b.keys[i] in b.groups
    ensures |b.groups[b.keys[i]]| >= 2 ==> EligibleUpTo(b, i + 1) == EligibleUpTo(b, i) + b.groups[b.keys[i]]
    ensures |b.groups[b.keys[i]]| < 2 ==> EligibleUpTo(b, i + 1) == EligibleUpTo(b, i)
  {
  }

  /** All the paths that loop visits, in order. */
  function Eligible<K(!new)>(b: Buckets<K>): seq<Path>
  {
    EligibleUpTo(b, |b.keys|)
  }

  lemma {:induction false} EligibleUpToMembers<K(!new)>(b: Buckets<K>, n: nat, p: Path)
    requires Valid(b) && n <= |b.keys|
    ensures p in EligibleUpTo(b, n) <==> exists j :: 0 <= j < n && |b.groups[b.keys[j]]| >= 2 && p in b.groups[b.keys[j]]
  {
    if n > 0 {
      EligibleUpToMembers(b, n - 1, p);
    }
  }

  /** The loop visits exactly the members of groups of two or more. */
  lemma EligibleMembers<K(!new)>(b: Buckets<K>, p: Path)
    requires Valid(b)
    ensures p in Eligible(b) <==> exists k :: k in b.groups && |b.groups[k]| >= 2 && p in b.groups[k]
  {
    EligibleUpToMembers(b, |b.keys|, p);
    if exists k :: k in b.groups && |b.groups[k]| >= 2 && p in b.groups[k] {
      var k :| k in b.groups && |b.groups[k]| >= 2 && p in b.groups[k];
      var j :| 0 <= j < |b.keys| && b.keys[j] == k;
      assert |b.groups[b.keys[j]]| >= 2 && p in b.groups[b.keys[j]];
    }
  }

  lemma {:induction false} EligibleUpToCount<K(!new)>(b: Buckets<K>, n: nat, k: K, p: Path)
    requires Valid(b) && n <= |b.keys|
    requires forall k' :: k' in b.groups && p in b.groups[k'] ==> k' == k
    ensures multiset(EligibleUpTo(b, n))[p]
         == if k in b.keys[..n] && |Group(b, k)| >= 2 then multiset(Group(b, k))[p] else 0
  {
    if n > 0 {
      EligibleUpToCount(b, n - 1, k, p);
      var key := b.keys[n - 1];
      assert multiset(EligibleUpTo(b, n))[p] == multiset(EligibleUpTo(b, n - 1))[p] + multiset(Shared(b, key))[p];
      NextKey(b, n);
      if key == k {
        assert multiset(Shared(b, key))[p] == if |Group(b, k)| >= 2 then multiset(Group(b, k))[p] else 0;
      } else {
        assert p !in Shared(b, key);
      }
    }
  }

  /** The `n`-th key is new among the first `n`. */
  lemma NextKey<K(!new)>(b: Buckets<K>, n: nat)
    requires Valid(b) && 0 < n <= |b.keys|
    ensures b.keys[..n] == b.keys[..n - 1] + [b.keys[n - 1]]
    ensures b.keys[n - 1] !in b.keys[..n - 1]
  {
    var init := b.keys[..n - 1];
    forall i | 0 <= i < |init| ensures init[i] != b.keys[n - 1] {
      assert init[i] == b.keys[i];
    }
  }

  /** A path that sits under one key only is visited as often as it occurs
      in that key's group when the group has two or more members, and not
      at all otherwise. */
  lemma EligibleCount<K(!new)>(b: Buckets<K>, k: K, p: Path)
    requires Valid(b)
    requires forall k' :: k' in b.groups && p in b.groups[k'] ==> k' == k
    ensures multiset(Eligible(b))[p] == if |Group(b, k)| >= 2 then multiset(Group(b, k))[p] else 0
    ensures multiset(Eligible(b))[p] >= 2 <==> multiset(Group(b, k))[p] >= 2
  {
    EligibleUpToCount(b, |b.keys|, k, p);
    assert b.keys[..|b.keys|] == b.keys;
    CountAtMostLength(Group(b, k), p);
  }

  /** The loop over the values visits nothing when every group has fewer
      than two members. */
  lemma NoSharedGroupVisitsNothing<K(!new)>(b: Buckets<K>)
    requires Valid(b)
    requires forall k :: k in b.groups ==> |b.groups[k]| < 2
    ensures Eligible(b) == []
  {
    assert |Eligible(b)| > 0 ==> Eligible(b)[0] in Eligible(b);
    forall p ensures p !in Eligible(b) {
      EligibleMembers(b, p);
    }
    assert |Eligible(b)| == 0;
  }

  /** Two appends under one key from the empty dictionary make one group,
      which the loop visits. */
  lemma AppendTwiceEligible<K(!new)>(k: K, p: Path, q: Path)
    ensures Eligible(Append(Append(Empty(), k, p), k, q)) == [p, q]
  {
    var e: Buckets<K> := Buckets([], map[]);
    assert e == Empty();
    var b1 := Buckets([k], map[k := [p]]);
    assert Append(e, k, p) == b1;
    var b := Buckets([k], map[k := [p, q]]);
    assert Append(b1, k, q) == b by {
      assert [p] + [q] == [p, q];
      assert map[k := [p]][k := [p, q]] == map[k := [p, q]];
    }
    OneGroupEligible(b, k);
  }

  /** With a single group of two or more, the loop visits exactly its
      members. */
  lemma OneGroupEligible<K(!new)>(b: Buckets<K>, k: K)
    requires b.keys == [k] && k in b.groups && |b.groups[k]| >= 2
    ensures Eligible(b) == b.groups[k]
  {
    assert EligibleUpTo(b, 1) == EligibleUpTo(b, 0) + Shared(b, k);
  }

  lemma DistinctConcat(s: seq<Path>, t: seq<Path>)
    requires Distinct(s) && Distinct(t)
    requires forall p :: p in s ==> p !in t
    ensures Distinct(s + t)
  {
    forall i, j | 0 <= i < j < |s + t| ensures (s + t)[i] != (s + t)[j] {
      if i < |s| && j >= |s| {
        assert (s + t)[i] in s && (s + t)[j] == t[j - |s|];
      }
    }
  }

  lemma {:induction false} EligibleUpToDistinct<K(!new)>(b: Buckets<K>, n: nat)
    requires Valid(b) && DistinctEntries(b) && n <= |b.keys|
    ensures Distinct(EligibleUpTo(b, n))
  {
    if n > 0 {
      EligibleUpToDistinct(b, n - 1);
      var k := b.keys[n - 1];
      forall p | p in EligibleUpTo(b, n - 1) ensures p !in Shared(b, k) {
        EligibleUpToMembers(b, n - 1, p);
        var j :| 0 <= j < n - 1 && |b.groups[b.keys[j]]| >= 2 && p in b.groups[b.keys[j]];
        assert b.keys[j] != k;
      }
      DistinctConcat(EligibleUpTo(b, n - 1), Shared(b, k));
    }
  }

  /** Distinct entries are visited at most once each. */
  lemma EligibleDistinct<K(!new)>(b: Buckets<K>)
    requires Valid(b) && DistinctEntries(b)
    ensures Distinct(Eligible(b))
  {
    EligibleUpToDistinct(b, |b.keys|);
  }

  /** The groups after the first `n + 1` add a suffix to what the loop has
      visited by then. */
  lemma {:induction false} EligibleSplit<K(!new)>(b: Buckets<K>, n: nat) returns (rest: seq<Path>)
    requires n < |b.keys|
    ensures Eligible(b) == EligibleUpTo(b, n + 1) + rest
  {
    rest := [];
    var m := |b.keys|;
    while m > n + 1
      invariant n + 1 <= m <= |b.keys|
      invariant Eligible(b) == EligibleUpTo(b, m) + rest
    {
      assert EligibleUpTo(b, m) == EligibleUpTo(b, m - 1) + Shared(b, b.keys[m - 1]);
      rest := Shared(b, b.keys[m - 1]) + rest;
      m := m - 1;
    }
  }
}
