/** Merging sets of locked packages, and fetching several directories into one lock file. */
module LockMerge {
  import opened Wrappers
  import opened VersionReqs
  import opened Lock

  /** Distinct requirements within every package. */
  ghost predicate Tidy(packages: LockSet) {
    OnePerKey(packages) && forall p :: p in packages ==> DistinctReqs(p.versions)
  }

  /** What a run leaves in the lock is tidy, whatever it resolved. */
  lemma GeneratedTidy(resolutions: ResolutionMap, packages: LockSet)
    requires Generated(resolutions, packages)
    ensures Tidy(packages)
  {
  }

  function OrElse(first: Option<LockedPackageVersion>,
      second: Option<LockedPackageVersion>): Option<LockedPackageVersion> {
    if first.Some? then first else second
  }

  /** `merged` answers every lookup as `incoming` does, and as `acc` does where `incoming` has no answer. */
  ghost predicate Overrides(merged: LockSet, acc: LockSet, incoming: LockSet)
    requires OnePerKey(merged) && OnePerKey(acc) && OnePerKey(incoming)
  {
    forall k, q :: Lookup(merged, k, q) == OrElse(Lookup(incoming, k, q), Lookup(acc, k, q))
  }

  // ---------- the versions of one package ----------

  /** Position of the first entry for a requirement, or the length. */
  method FindSlot(versions: seq<LockedPackageVersion>, req: VersionReq) returns (i: nat)
    ensures i <= |versions|
    ensures i < |versions| ==> versions[i].requirement == req
    ensures forall j :: 0 <= j < i ==> versions[j].requirement != req
  {
    i := 0;
    while i < |versions| && versions[i].requirement != req
      invariant i <= |versions|
      invariant forall j :: 0 <= j < i ==> versions[j].requirement != req
    {
      i := i + 1;
    }
  }

  /** Overwrites the slot of one requirement, or appends it. */
  method MergeVersion(existing: seq<LockedPackageVersion>, v: LockedPackageVersion)
    returns (merged: seq<LockedPackageVersion>)
    ensures DistinctReqs(existing) ==> DistinctReqs(merged)
    ensures forall q :: FindVersion(merged, q) == if q == v.requirement then Some(v) else FindVersion(existing, q)
    ensures |existing| <= |merged|
    ensures forall i :: 0 <= i < |existing| ==> merged[i].requirement == existing[i].requirement
  {
    var slot := FindSlot(existing, v.requirement);
    merged := if slot < |existing| then existing[slot := v] else existing + [v];
    forall q
      ensures FindVersion(merged, q) == if q == v.requirement then Some(v) else FindVersion(existing, q)
    {
      SetSlot(existing, slot, v, q);
    }
  }

  /** One more entry of distinct requirements on the incoming side. */
  lemma FindOneMore(incoming: seq<LockedPackageVersion>, n: nat, q: VersionReq)
    requires DistinctReqs(incoming) && n < |incoming|
    ensures FindVersion(incoming[..n + 1], q) ==
            if q == incoming[n].requirement then Some(incoming[n]) else FindVersion(incoming[..n], q)
  {
    assert incoming[..n + 1] == incoming[..n] + [incoming[n]];
    FindAppended(incoming[..n], incoming[n], q);
  }

  /** Overwrites the slot of each incoming requirement, or appends it. Slots keep their places. */
  method MergeVersions(existing: seq<LockedPackageVersion>, incoming: seq<LockedPackageVersion>)
    returns (merged: seq<LockedPackageVersion>)
    ensures DistinctReqs(existing) ==> DistinctReqs(merged)
    ensures DistinctReqs(incoming) ==>
        forall q :: FindVersion(merged, q) == OrElse(FindVersion(incoming, q), FindVersion(existing, q))
    ensures |existing| <= |merged|
    ensures forall i :: 0 <= i < |existing| ==> merged[i].requirement == existing[i].requirement
  {
    merged := existing;
    var n := 0;
    while n < |incoming|
      invariant 0 <= n <= |incoming|
      invariant DistinctReqs(existing) ==> DistinctReqs(merged)
      invariant DistinctReqs(incoming) ==>
          forall q :: FindVersion(merged, q) == OrElse(FindVersion(incoming[..n], q), FindVersion(existing, q))
      invariant |existing| <= |merged|
          && forall i :: 0 <= i < |existing| ==> merged[i].requirement == existing[i].requirement
    {
      merged := MergeVersion(merged, incoming[n]);
      forall q | DistinctReqs(incoming)
        ensures FindVersion(incoming[..n + 1], q) ==
                if q == incoming[n].requirement then Some(incoming[n]) else FindVersion(incoming[..n], q)
      {
        FindOneMore(incoming, n, q);
      }
      n := n + 1;
    }
    assert incoming[..|incoming|] == incoming;
  }

  lemma {:induction false} FindAppended(versions: seq<LockedPackageVersion>, v: LockedPackageVersion, q: VersionReq)
    ensures FindVersion(versions + [v], q) ==
            if FindVersion(versions, q).Some? then FindVersion(versions, q)
            else if q == v.requirement then Some(v)
            else None
  {
    if versions != [] {
      assert (versions + [v])[1..] == versions[1..] + [v];
      FindAppended(versions[1..], v, q);
    }
  }

  /** Writing an entry into the first slot of its requirement, or at the end. */
  lemma {:induction false} SetSlot(versions: seq<LockedPackageVersion>, slot: nat, v: LockedPackageVersion,
          q: VersionReq)
    requires slot <= |versions| && (slot < |versions| ==> versions[slot].requirement == v.requirement)
    requires forall j :: 0 <= j < slot ==> versions[j].requirement != v.requirement
    ensures FindVersion(if slot < |versions| then versions[slot := v] else versions + [v], q) ==
            if q == v.requirement then Some(v) else FindVersion(versions, q)
  {
    if versions == [] {
    } else if slot == 0 {
      assert versions[0 := v][1..] == versions[1..];
    } else {
      SetSlot(versions[1..], slot - 1, v, q);
      if slot < |versions| {
        assert versions[slot := v][1..] == versions[1..][slot - 1 := v];
      } else {
        assert (versions + [v])[1..] == versions[1..] + [v];
      }
    }
  }

  // ---------- sets of packages ----------

  /** Putting a package into a set that has none with its key. */
  lemma PutNew(packages: LockSet, p: LockedPackage)
    requires OnePerKey(packages) && forall o :: o in packages ==> o.Key() != p.Key()
    ensures OnePerKey(packages + {p}) && InsertNew(packages, p) == packages + {p}
    ensures forall k, q ::
        Lookup(packages + {p}, k, q) == if k == p.Key() then FindVersion(p.versions, q) else Lookup(packages, k, q)
    ensures forall q :: Lookup(packages, p.Key(), q) == None
  {
  }

  /** Taking the package of a key out. */
  lemma TakeOut(packages: LockSet, p: LockedPackage)
    requires OnePerKey(packages) && p in packages
    ensures OnePerKey(packages - {p}) && forall o :: o in packages - {p} ==> o.Key() != p.Key()
    ensures forall k, q :: k != p.Key() ==> Lookup(packages - {p}, k, q) == Lookup(packages, k, q)
    ensures forall q :: Lookup(packages, p.Key(), q) == FindVersion(p.versions, q)
  {
  }

  /** Merges one package into the set. */
  method MergePackage(acc: LockSet, pkg: LockedPackage) returns (merged: LockSet)
    requires OnePerKey(acc)
    ensures OnePerKey(merged)
    ensures forall k, q :: k != pkg.Key() ==> Lookup(merged, k, q) == Lookup(acc, k, q)
    ensures DistinctReqs(pkg.versions) ==>
              forall q ::
                Lookup(merged, pkg.Key(), q) == OrElse(FindVersion(pkg.versions, q), Lookup(acc, pkg.Key(), q))
    ensures Tidy(acc) && DistinctReqs(pkg.versions) ==> Tidy(merged)
  {
    var taken := Get(acc, pkg.Key());
    if taken.Some? {
      var existing := taken.value;
      TakeOut(acc, existing);
      var versions := MergeVersions(existing.versions, pkg.versions);
      PutNew(acc - {existing}, existing.(versions := versions));
      merged := InsertNew(acc - {existing}, existing.(versions := versions));
    } else {
      PutNew(acc, pkg);
      merged := InsertNew(acc, pkg);
    }
  }

  /** One more package on the incoming side. */
  lemma OverridesStep(acc: LockSet, done: LockSet, pkg: LockedPackage, before: LockSet, after: LockSet)
    requires OnePerKey(acc) && OnePerKey(done + {pkg}) && pkg !in done
    requires OnePerKey(done) && OnePerKey(before) && OnePerKey(after)
    requires Overrides(before, acc, done)
    requires forall k, q :: k != pkg.Key() ==> Lookup(after, k, q) == Lookup(before, k, q)
    requires forall q ::
        Lookup(after, pkg.Key(), q) == OrElse(FindVersion(pkg.versions, q), Lookup(before, pkg.Key(), q))
    ensures Overrides(after, acc, done + {pkg})
  {
    PutNew(done, pkg);
    forall k, q
      ensures Lookup(after, k, q) == OrElse(Lookup(done + {pkg}, k, q), Lookup(acc, k, q))
    {
      assert Lookup(before, k, q) == OrElse(Lookup(done, k, q), Lookup(acc, k, q));
    }
  }

  /**
   Merging refines right-biased override on package, registry and requirement: one package per key,
   distinct requirements within it, and every lookup answered from `incoming` first.
   */
  method MergeLockedPackages(acc: LockSet, incoming: LockSet) returns (merged: LockSet)
    requires OnePerKey(acc) && OnePerKey(incoming)
    ensures OnePerKey(merged)
    ensures Tidy(incoming) ==> Overrides(merged, acc, incoming)
    ensures Tidy(incoming) ==> forall k, q ::
              Lookup(merged, k, q) ==
              if Lookup(incoming, k, q).Some? then Lookup(incoming, k, q) else Lookup(acc, k, q)
    ensures Tidy(incoming) && Tidy(acc) ==> Tidy(merged)
  {
    merged := acc;
    var left := incoming;
    ghost var done: LockSet := {};
    while left != {}
      invariant done + left == incoming && done !! left
      invariant OnePerKey(merged) && OnePerKey(done)
      invariant Tidy(incoming) ==> Overrides(merged, acc, done)
      invariant Tidy(incoming) && Tidy(acc) ==> Tidy(merged)
      decreases left
    {
      var pkg :| pkg in left;
      ghost var before := merged;
      merged := MergePackage(merged, pkg);
      assert OnePerKey(done + {pkg});
      if Tidy(incoming) {
        OverridesStep(acc, done, pkg, before, merged);
      }
      left, done := left - {pkg}, done + {pkg};
    }
    assert done == incoming;
  }

  /** Merging keeps every locked version within its requirement. */
  lemma MergeSound(merged: LockSet, acc: LockSet, incoming: LockSet)
    requires LockSound(acc) && LockSound(incoming) && Tidy(merged) && Overrides(merged, acc, incoming)
    ensures LockSound(merged)
  {
    forall p, v | p in merged && v in p.versions
      ensures Matches(v.requirement, v.version)
    {
      FindDistinct(p.versions, v);
      assert Get(merged, p.Key()) == Some(p);
      assert Lookup(merged, p.Key(), v.requirement) == Some(v);
    }
  }

  // ---------- fetching several directories ----------

  /** What fetching one directory leaves in a lock file with the given packages, or nothing if it fails. */
  type FetchDir = (string, LockSet) -> Option<LockSet>

  /** Every directory can be fetched with an empty lock. */
  ghost predicate Fetches(fetch: FetchDir, dirs: seq<string>) {
    forall dir :: dir in dirs ==> fetch(dir, {}).Some? && Tidy(fetch(dir, {}).value)
  }

  /** What can be fetched with an empty lock satisfies its requirements. */
  ghost predicate FetchesSound(fetch: FetchDir, dirs: seq<string>) {
    forall dir :: dir in dirs && fetch(dir, {}).Some? ==> LockSound(fetch(dir, {}).value)
  }

  /** The last of the directories that has an answer gives it, or else the old lock. */
  ghost function LastAnswer(before: LockSet, fetch: FetchDir, dirs: seq<string>, k: Key,
      q: VersionReq): Option<LockedPackageVersion>
    requires OnePerKey(before) && Fetches(fetch, dirs)
  {
    if dirs == [] then Lookup(before, k, q)
    else
      var last := dirs[|dirs| - 1];
      OrElse(Lookup(fetch(last, {}).value, k, q), LastAnswer(before, fetch, dirs[..|dirs| - 1], k, q))
  }

  /** Where no directory from the n-th on has an answer, those before decide, and the old lock after them. */
  lemma {:induction false} NoAnswerFrom(before: LockSet, fetch: FetchDir, dirs: seq<string>, n: nat, k: Key,
          q: VersionReq)
    requires OnePerKey(before) && Fetches(fetch, dirs) && n <= |dirs|
    requires forall j :: n <= j < |dirs| ==> Lookup(fetch(dirs[j], {}).value, k, q).None?
    ensures LastAnswer(before, fetch, dirs, k, q) == LastAnswer(before, fetch, dirs[..n], k, q)
    ensures n == 0 ==> LastAnswer(before, fetch, dirs, k, q) == Lookup(before, k, q)
  {
    if n < |dirs| {
      var init := dirs[..|dirs| - 1];
      assert Lookup(fetch(dirs[|dirs| - 1], {}).value, k, q).None?;
      assert init[..n] == dirs[..n];
      NoAnswerFrom(before, fetch, init, n, k, q);
    } else {
      assert dirs[..n] == dirs;
    }
  }

  /** The last directory with an answer gives it. */
  lemma LastAnswerIs(before: LockSet, fetch: FetchDir, dirs: seq<string>, i: nat, k: Key, q: VersionReq)
    requires OnePerKey(before) && Fetches(fetch, dirs) && i < |dirs|
    requires Lookup(fetch(dirs[i], {}).value, k, q).Some?
    requires forall j :: i < j < |dirs| ==> Lookup(fetch(dirs[j], {}).value, k, q).None?
    ensures LastAnswer(before, fetch, dirs, k, q) == Lookup(fetch(dirs[i], {}).value, k, q)
  {
    NoAnswerFrom(before, fetch, dirs, i + 1, k, q);
    assert dirs[..i + 1][i] == dirs[i];
  }

  /**
   Fetches each directory and unions the resulting lock entries. The lock file is emptied before
   every fetch, so no fetch sees a locked version. The result answers every lookup from the last
   directory that has an answer, and from the old lock if none has; a failed fetch leaves no result.
   */
  method FetchIntoLock(fetch: FetchDir, dirs: seq<string>, packages: LockSet) returns (r: Option<LockSet>)
    requires Tidy(packages)
    requires forall dir, lock :: fetch(dir, lock).Some? ==> Tidy(fetch(dir, lock).value)
    ensures r.Some? <==> forall dir :: dir in dirs ==> fetch(dir, {}).Some?
    ensures r.Some? ==> Tidy(r.value) && Fetches(fetch, dirs)
                        && forall k, q :: Lookup(r.value, k, q) == LastAnswer(packages, fetch, dirs, k, q)
    ensures r.Some? && LockSound(packages) && FetchesSound(fetch, dirs) ==> LockSound(r.value)
  {
    var lock := packages;
    var union: LockSet := {};
    var taken := lock;
    lock := {};
    union := MergeLockedPackages(union, taken);
    if LockSound(packages) {
      MergeSound(union, {}, packages);
    }
    var n := 0;
    while n < |dirs|
      invariant 0 <= n <= |dirs| && lock == {} && Tidy(union)
      invariant Fetches(fetch, dirs[..n])
      invariant forall k, q :: Lookup(union, k, q) == LastAnswer(packages, fetch, dirs[..n], k, q)
      invariant LockSound(packages) && FetchesSound(fetch, dirs) ==> LockSound(union)
    {
      var fetched := fetch(dirs[n], lock);
      if fetched.None? {
        return None;
      }
      lock := fetched.value;
      taken := lock;
      lock := {};
      assert dirs[..n + 1] == dirs[..n] + [dirs[n]];
      ghost var before := union;
      union := MergeLockedPackages(union, taken);
      assert Overrides(union, before, taken);
      if LockSound(packages) && FetchesSound(fetch, dirs) {
        assert dirs[n] in dirs;
        MergeSound(union, before, taken);
      }
      n := n + 1;
    }
    assert dirs[..n] == dirs;
    return Some(union);
  }
}
