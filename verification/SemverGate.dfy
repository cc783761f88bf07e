/**
 The semver publish gate: listing the releases of a series, finding the neighbours of a candidate,
 comparing worlds, and what holds of a registry after any sequence of gated publishes.
 */
module SemverGate {
  import opened Wrappers
  import opened Versions
  import opened VersionReqs
  import opened PackageRefs
  import opened ReleaseInfo
  import opened Sorting

  // ---------- decoded components and their worlds ----------

  /** A decoded Wasm file; `id` stands for everything in it but the names of its worlds. */
  datatype Decoded = Component(id: nat, world: string) | WitPackage(id: nat, worlds: set<string>)
  {
    /** The names in the index of worlds. */
    function Worlds(): set<string> {
      match this
      case Component(_, world) => {world}
      case WitPackage(_, worlds) => worlds
    }
  }

  datatype DecodedComponent = DecodedComponent(package: PackageRef, version: Version, wasm: Decoded)

  /** What merging and comparing the worlds of one name gives; the inside of it is not modelled. */
  datatype PairVerdict = Compatible | Incompatible | MergeFailed

  /** Arguments: the newer file, the older file, the name of the world. */
  type PairCheck = (Decoded, Decoded, string) -> PairVerdict

  datatype GateError =
    | VersionAlreadyExists(package: PackageRef, version: Version)
    | SemverIncompatible(previous: Version, next: Version)
    | InvalidComponent

  /** Every world of the older file is still there and may be replaced by the newer one. */
  ghost predicate WorldsCompatible(pair: PairCheck, older: Decoded, newer: Decoded) {
    forall name :: name in older.Worlds() ==> name in newer.Worlds() && pair(newer, older, name) == Compatible
  }

  /** An error report about two files that fits them. */
  ghost predicate FitsError(pair: PairCheck, older: DecodedComponent, newer: DecodedComponent, e: GateError) {
    || (e == SemverIncompatible(older.version, newer.version)
        && exists name :: name in older.wasm.Worlds()
                          && (name !in newer.wasm.Worlds() || pair(newer.wasm, older.wasm, name) == Incompatible))
    || (e == InvalidComponent
        && exists name :: name in older.wasm.Worlds() && name in newer.wasm.Worlds()
                          && pair(newer.wasm, older.wasm, name) == MergeFailed)
  }

  /** Compares two releases; the one with the smaller version counts as the older, whichever comes first. */
  method SemverCheck(pair: PairCheck, self: DecodedComponent, other: DecodedComponent)
    returns (r: Result<(), GateError>)
    ensures var (older, newer) := if Lt(self.version, other.version) then (self, other) else (other, self);
            r.Ok? <==> forall name :: name in older.wasm.Worlds() ==>
                         name in newer.wasm.Worlds() && pair(newer.wasm, older.wasm, name) == Compatible
    ensures var (older, newer) := if Lt(self.version, other.version) then (self, other) else (other, self);
            older.wasm.Component? && newer.wasm.Component? ==>
              (r.Ok? <==> newer.wasm.world == older.wasm.world
                          && pair(newer.wasm, older.wasm, older.wasm.world) == Compatible)
    ensures var (older, newer) := if Lt(self.version, other.version) then (self, other) else (other, self);
            older.wasm.WitPackage? && newer.wasm.WitPackage? ==>
              (r.Ok? <==> forall name :: name in older.wasm.worlds ==>
                            name in newer.wasm.worlds && pair(newer.wasm, older.wasm, name) == Compatible)
    ensures var (older, newer) := if Lt(self.version, other.version) then (self, other) else (other, self);
            r.Err? ==>
              || (r.error == SemverIncompatible(older.version, newer.version) && exists name ::
                    name in older.wasm.Worlds() && (name !in newer.wasm.Worlds()
                                                    || pair(newer.wasm, older.wasm, name) == Incompatible))
              || (r.error == InvalidComponent && exists name ::
                    && name in older.wasm.Worlds() && name in newer.wasm.Worlds()
                    && pair(newer.wasm, older.wasm, name) == MergeFailed)
    ensures Lt(self.version, other.version) ==> (r.Ok? <==> WorldsCompatible(pair, self.wasm, other.wasm))
    ensures !Lt(self.version, other.version) ==> (r.Ok? <==> WorldsCompatible(pair, other.wasm, self.wasm))
    ensures r.Err? && Lt(self.version, other.version) ==> FitsError(pair, self, other, r.error)
    ensures r.Err? && !Lt(self.version, other.version) ==> FitsError(pair, other, self, r.error)
  {
    var (older, newer) := if Lt(self.version, other.version) then (self, other) else (other, self);
    var prevWorlds := newer.wasm.Worlds();
    var newWorlds := older.wasm.Worlds();
    while newWorlds != {}
      invariant newWorlds <= older.wasm.Worlds()
      invariant forall name :: name in older.wasm.Worlds() - newWorlds ==>
                  name in newer.wasm.Worlds() && pair(newer.wasm, older.wasm, name) == Compatible
      decreases newWorlds
    {
      var name :| name in newWorlds;
      if name !in prevWorlds {
        return Err(SemverIncompatible(older.version, newer.version));
      }
      match pair(newer.wasm, older.wasm, name) {
        case MergeFailed => return Err(InvalidComponent);
        case Incompatible => return Err(SemverIncompatible(older.version, newer.version));
        case Compatible =>
      }
      newWorlds := newWorlds - {name};
    }
    return Ok(());
  }

  // ---------- listing versions ----------

  predicate AtMost(a: VersionInfo, b: VersionInfo) {
    !Compare(a.version, b.version).Greater?
  }

  predicate AtLeast(a: VersionInfo, b: VersionInfo) {
    AtMost(b, a)
  }

  function Filter(req: VersionReq, versions: seq<VersionInfo>): (r: seq<VersionInfo>)
    ensures forall v :: v in r <==> v in versions && Matches(req, v.version)
    ensures forall v :: multiset(r)[v] == if Matches(req, v.version) then multiset(versions)[v] else 0
  {
    if versions == [] then []
    else
      assert versions == [versions[0]] + versions[1..];
      if Matches(req, versions[0].version) then [versions[0]] + Filter(req, versions[1..])
      else Filter(req, versions[1..])
  }

  function Reversed(s: seq<VersionInfo>): (r: seq<VersionInfo>)
    ensures |r| == |s| && forall i :: 0 <= i < |s| ==> r[i] == s[|s| - 1 - i]
    ensures multiset(r) == multiset(s)
  {
    if s == [] then []
    else
      assert s == [s[0]] + s[1..];
      Reversed(s[1..]) + [s[0]]
  }

  datatype VersionSort = Ascending | Descending

  lemma AtMostTotal()
    ensures TotalPreorder(AtMost)
  {
    forall a, b
      ensures AtMost(a, b) || AtMost(b, a)
    {
      VersionOrder(a.version, b.version, b.version);
    }
    forall a, b, c | AtMost(a, b) && AtMost(b, c)
      ensures AtMost(a, c)
    {
      VersionOrder(a.version, b.version, c.version);
      VersionOrder(a.version, c.version, b.version);
      VersionOrder(b.version, c.version, a.version);
      VersionOrder(c.version, b.version, a.version);
    }
  }

  /** Exactly the listed versions that match, as often as they are listed, in the order asked for. */
  method ListMatchingVersions(listing: Option<seq<VersionInfo>>, requirement: VersionReq, sort: VersionSort)
    returns (matching: seq<VersionInfo>)
    ensures listing.None? ==> matching == []
    ensures listing.Some? ==> forall v :: multiset(matching)[v] == if Matches(requirement, v.version)
        then multiset(listing.value)[v] else 0
    ensures sort == Ascending ==> SortedBy(AtMost, matching)
    ensures sort == Descending ==> SortedBy(AtLeast, matching)
  {
    var versions := if listing.Some? then listing.value else [];
    matching := Filter(requirement, versions);
    AtMostTotal();
    SortSorts(AtMost, matching);
    matching := Sort(AtMost, matching);
    if sort == Descending {
      matching := Reversed(matching);
    }
  }

  // ---------- the series of a version ----------

  /** The requirement that picks out the series: X.*, or 0.Y.*, or for 0.0.Z the version itself. */
  function SeriesMask(v: Version): VersionReq {
    if v.major > 0 then VersionReq([Comparator(Wildcard, v.major, None, None, [])])
    else if v.minor > 0 then VersionReq([Comparator(Wildcard, 0, Some(v.minor), None, [])])
    else VersionReq([Comparator(Caret, v.major, Some(v.minor), Some(v.patch), v.pre)])
  }

  predicate InSeries(candidate: Version, v: Version) {
    Matches(SeriesMask(candidate), v)
  }

  predicate SameSeries(u: Version, v: Version) {
    && u.major == v.major
    && (u.major == 0 ==> u.minor == v.minor)
    && (u.major == 0 && u.minor == 0 ==> u.patch == v.patch)
  }

  /** What the mask of a candidate matches, prerelease candidates and releases included. */
  lemma SeriesMaskMatches(candidate: Version, v: Version)
    ensures InSeries(candidate, v) <==>
            SameSeries(candidate, v)
            && (v.Stable() || (candidate.major == 0 && candidate.minor == 0 && !candidate.Stable()
                && !ComparePre(v.pre, candidate.pre).Less?))
    ensures InSeries(candidate, v) <==>
            && v.major == candidate.major
            && (candidate.major == 0 ==> v.minor == candidate.minor)
            && (candidate.major == 0 && candidate.minor == 0 ==> v.patch == candidate.patch)
            && (v.pre == [] || (candidate.major == 0 && candidate.minor == 0 && candidate.pre != []
                                && !ComparePre(v.pre, candidate.pre).Less?))
  {
    var c := SeriesMask(candidate).comparators[0];
    assert SeriesMask(candidate).comparators == [c];
    assert MatchesComparator(c, v) && (v.pre == [] || PreIsCompatible(c, v)) <==> InSeries(candidate, v);
  }

  /** On stable versions, being in the series of is an equivalence. */
  lemma SeriesEquivalence(u: Version, v: Version, w: Version)
    requires u.Stable() && v.Stable() && w.Stable()
    ensures InSeries(u, u)
    ensures InSeries(u, v) ==> InSeries(v, u)
    ensures InSeries(u, v) && InSeries(v, w) ==> InSeries(u, w)
  {
    SeriesMaskMatches(u, u);
    SeriesMaskMatches(u, v);
    SeriesMaskMatches(v, u);
    SeriesMaskMatches(v, w);
    SeriesMaskMatches(u, w);
  }

  // ---------- the neighbours of a candidate ----------

  /** v is the greatest listed version below the candidate. */
  ghost predicate GreatestBelow(listed: seq<VersionInfo>, version: Version, v: VersionInfo) {
    v in listed && Lt(v.version, version) && forall w ::
        w in listed && Lt(w.version, version) ==> !Lt(v.version, w.version)
  }

  /** v is the least listed version above the candidate. */
  ghost predicate LeastAbove(listed: seq<VersionInfo>, version: Version, v: VersionInfo) {
    v in listed && Lt(version, v.version) && forall w ::
        w in listed && Lt(version, w.version) ==> !Lt(w.version, v.version)
  }

  ghost predicate ExactNeighbors(listed: seq<VersionInfo>, version: Version, below: Option<VersionInfo>,
          above: Option<VersionInfo>) {
    && (below.Some? ==> GreatestBelow(listed, version, below.value))
    && (below.None? ==> forall w :: w in listed ==> !Lt(w.version, version))
    && (above.Some? ==> LeastAbove(listed, version, above.value))
    && (above.None? ==> forall w :: w in listed ==> !Lt(version, w.version))
  }

  /** Walks down a descending list to the first version that is not above the candidate. */
  method FindNeighbors(listed: seq<VersionInfo>, version: Version)
    returns (present: bool, neighbors: seq<Option<VersionInfo>>)
    requires SortedBy(AtLeast, listed)
    ensures present <==> exists v :: v in listed && v.version == version
    ensures !present ==> |neighbors| == 2 && ExactNeighbors(listed, version, neighbors[0], neighbors[1])
  {
    present := false;
    var slots := new Option<VersionInfo>[2](_ => None);
    var n := 0;
    while n < |listed|
      invariant 0 <= n <= |listed| && slots[0] == None
      invariant forall j :: 0 <= j < n ==> Lt(version, listed[j].version)
      invariant n == 0 ==> slots[1] == None
      invariant n > 0 ==> slots[1] == Some(listed[n - 1])
    {
      var info := listed[n];
      match Compare(version, info.version) {
        case Equal =>
          VersionOrder(version, info.version, version);
          present, neighbors := true, [];
          return;
        case Greater =>
          slots[0] := Some(info);
          VersionOrder(version, info.version, version);
          RestBelow(listed, version, n);
          break;
        case Less =>
          slots[1] := Some(info);
      }
      n := n + 1;
    }
    AboveIsLeast(listed, version, n);
    neighbors := slots[..];
  }

  /** Past the first version below the candidate, all are below it, and that one is the greatest. */
  lemma RestBelow(listed: seq<VersionInfo>, version: Version, n: nat)
    requires SortedBy(AtLeast, listed) && n < |listed| && Lt(listed[n].version, version)
    ensures forall j :: n <= j < |listed| ==>
        Lt(listed[j].version, version) && !Lt(listed[n].version, listed[j].version)
  {
    forall j | n <= j < |listed|
      ensures Lt(listed[j].version, version) && !Lt(listed[n].version, listed[j].version)
    {
      assert j == n || AtLeast(listed[n], listed[j]);
      VersionOrder(listed[j].version, listed[n].version, version);
    }
  }

  /** In a descending list, the last of the versions above the candidate is the least of them. */
  lemma AboveIsLeast(listed: seq<VersionInfo>, version: Version, n: nat)
    requires SortedBy(AtLeast, listed) && n <= |listed|
    requires forall j :: 0 <= j < n ==> Lt(version, listed[j].version)
    requires forall j :: n <= j < |listed| ==> Lt(listed[j].version, version)
    ensures forall v :: v in listed ==> v.version != version
    ensures n > 0 ==> LeastAbove(listed, version, listed[n - 1])
    ensures n < |listed| ==> GreatestBelow(listed, version, listed[n])
    ensures n == 0 ==> forall w :: w in listed ==> !Lt(version, w.version)
    ensures n == |listed| ==> forall w :: w in listed ==> !Lt(w.version, version)
  {
    forall j | 0 <= j < |listed|
      ensures listed[j].version != version
      ensures Lt(version, listed[j].version) <==> j < n
      ensures Lt(listed[j].version, version) <==> j >= n
      ensures 0 <= j < n ==> !Lt(listed[j].version, listed[n - 1].version)
      ensures n <= j ==> !Lt(listed[n].version, listed[j].version)
    {
      VersionOrder(version, listed[j].version, version);
      if j < n - 1 {
        assert AtLeast(listed[j], listed[n - 1]);
        VersionOrder(listed[j].version, listed[n - 1].version, version);
      }
      if n < j {
        assert AtLeast(listed[n], listed[j]);
        VersionOrder(listed[n].version, listed[j].version, version);
      }
      VersionOrder(listed[j].version, listed[j].version, version);
    }
  }

  // ---------- the registry ----------

  type Releases = map<Version, Decoded>

  type Store = map<PackageRef, Releases>

  function ReleasesOf(store: Store, package: PackageRef): Releases {
    if package in store then store[package] else map[]
  }

  /** A dry run only makes sure that there is a place for the package. */
  function Stored(store: Store, package: PackageRef, version: Version, wasm: Decoded, dryRun: bool): Store {
    var releases := ReleasesOf(store, package);
    store[package := if dryRun then releases else releases[version := wasm]]
  }

  /** The local backend: a directory of releases per package. */
  class LocalBackend {
    var store: Store

    /** The versions in no particular order, or nothing for an unknown package. */
    method ListAllVersions(package: PackageRef) returns (r: Option<seq<VersionInfo>>)
      ensures r.Some? <==> package in store
      ensures r.Some? ==> forall v :: v in r.value <==> v.version in store[package] && !v.yanked
    {
      if package !in store {
        return None;
      }
      var versions: seq<VersionInfo> := [];
      var left := store[package].Keys;
      while left != {}
        invariant left <= store[package].Keys
        invariant forall v :: v in versions <==> v.version in store[package].Keys - left && !v.yanked
        decreases left
      {
        var version :| version in left;
        versions := versions + [VersionInfo(version, false)];
        left := left - {version};
      }
      return Some(versions);
    }

    method Publish(package: PackageRef, version: Version, wasm: Decoded, dryRun: bool)
      modifies this
      ensures store == Stored(old(store), package, version, wasm, dryRun)
      ensures dryRun ==> forall q :: ReleasesOf(store, q) == ReleasesOf(old(store), q)
      ensures !dryRun ==> ReleasesOf(store, package) == ReleasesOf(old(store), package)[version := wasm]
      ensures store.Keys == old(store.Keys) + {package}
      ensures forall q :: q != package ==> ReleasesOf(store, q) == ReleasesOf(old(store), q)
    {
      if package !in store {
        store := store[package := map[]];
      }
      if !dryRun {
        store := store[package := store[package][version := wasm]];
      }
    }
  }

  // ---------- the gate ----------

  ghost predicate NextBelow(releases: Releases, version: Version, u: Version) {
    && u in releases && InSeries(version, u) && Lt(u, version)
    && forall w :: w in releases && InSeries(version, w) && Lt(w, version) ==> !Lt(u, w)
  }

  ghost predicate NextAbove(releases: Releases, version: Version, u: Version) {
    && u in releases && InSeries(version, u) && Lt(version, u)
    && forall w :: w in releases && InSeries(version, w) && Lt(version, w) ==> !Lt(w, u)
  }

  predicate AlreadyListed(releases: Releases, version: Version) {
    version in releases && InSeries(version, version)
  }

  /** What the gate lets through: a version not listed yet, compatible with its neighbours in the series. */
  ghost predicate Accepts(pair: PairCheck, releases: Releases, version: Version, wasm: Decoded) {
    && !AlreadyListed(releases, version)
    && (forall u :: NextBelow(releases, version, u) ==> WorldsCompatible(pair, releases[u], wasm))
    && (forall u :: NextAbove(releases, version, u) ==> WorldsCompatible(pair, wasm, releases[u]))
  }

  /**
   The gate in full: a stored version is refused if it is stable or one of 0.0.Z, and every world of the
   next release below has to be kept by the candidate, every world of the candidate by the next one above.
   */
  lemma AcceptsInFull(pair: PairCheck, releases: Releases, version: Version, wasm: Decoded)
    ensures Accepts(pair, releases, version, wasm) <==>
            && !(version in releases && (version.pre == [] || (version.major == 0 && version.minor == 0)))
            && (forall u, name :: NextBelow(releases, version, u) && name in releases[u].Worlds() ==>
                  name in wasm.Worlds() && pair(wasm, releases[u], name) == Compatible)
            && (forall u, name :: NextAbove(releases, version, u) && name in wasm.Worlds() ==>
                  name in releases[u].Worlds() && pair(releases[u], wasm, name) == Compatible)
  {
    SeriesMaskMatches(version, version);
    PreOrder(version.pre, version.pre, version.pre);
  }

  /**
   Who is next to a prerelease of 0.0.Z: below, nothing that differs in more than build metadata, so it is
   never compared with an older release; above, what is stored of 0.0.Z and later than it.
   */
  lemma ZeroNeighbors(releases: Releases, version: Version, u: Version)
    requires version.major == 0 && version.minor == 0 && !version.Stable()
    ensures NextBelow(releases, version, u) ==> u.SameUpToBuild(version)
    ensures NextAbove(releases, version, u) <==>
            && u in releases && u.major == 0 && u.minor == 0 && u.patch == version.patch && Lt(version, u)
            && forall w :: (
                 && w in releases && w.major == 0 && w.minor == 0 && w.patch == version.patch
                 && Lt(version, w)) ==> !Lt(w, u)
  {
    forall w
      ensures Lt(version, w) && w.major == 0 && w.minor == 0 && w.patch == version.patch ==> InSeries(version, w)
      ensures InSeries(version, w) && Lt(w, version) ==> w.SameUpToBuild(version)
      ensures InSeries(version, w) ==> w.major == 0 && w.minor == 0 && w.patch == version.patch
    {
      SeriesMaskMatches(version, w);
      PreOrder(version.pre, w.pre, w.pre);
      PreOrder(w.pre, version.pre, version.pre);
    }
  }

  /** A report that fits one of the two pairs that the candidate forms with its neighbours. */
  ghost predicate FitsNeighbor(pair: PairCheck, releases: Releases, candidate: DecodedComponent, e: GateError) {
    exists u :: u in releases &&
                var other := DecodedComponent(candidate.package, u, releases[u]);
                || (NextBelow(releases, candidate.version, u) && FitsError(pair, other, candidate, e))
                || (NextAbove(releases, candidate.version, u) && FitsError(pair, candidate, other, e))
  }

  datatype PublishOpts = PublishOpts(dryRun: bool, skipSemverCheck: bool)

  /** The order of components of one package. */
  predicate ByVersion(a: DecodedComponent, b: DecodedComponent) {
    !Compare(a.version, b.version).Greater?
  }

  function Present(c: Option<DecodedComponent>): seq<DecodedComponent> {
    if c.Some? then [c.value] else []
  }

  /** Sorting puts the candidate between its neighbours. */
  lemma SortedSeries(candidate: DecodedComponent, below: Option<DecodedComponent>, above: Option<DecodedComponent>)
    requires below.Some? ==> Lt(below.value.version, candidate.version)
    requires above.Some? ==> Lt(candidate.version, above.value.version)
    ensures Sort(ByVersion,
        Present(below) + Present(above) + [candidate]) == Present(below) + [candidate] + Present(above)
  {
    var c := [candidate];
    assert Sort(ByVersion, c) == c;
    if above.Some? {
      VersionOrder(candidate.version, above.value.version, candidate.version);
      assert ([above.value] + c)[1..] == c;
      assert Sort(ByVersion, [above.value] + c) == Insert(ByVersion, above.value, c) == [candidate, above.value];
    }
    if below.Some? {
      var rest := Present(above) + c;
      assert ([below.value] + rest)[1..] == rest;
      assert Present(below) + Present(above) + c == [below.value] + rest;
      assert Sort(ByVersion, rest) == c + Present(above);
    } else {
      assert Present(below) + Present(above) + c == Present(above) + c;
    }
  }

  /** Checks the adjacent pairs that the candidate forms with its neighbours, lower pair first. */
  method CheckSeries(pair: PairCheck, candidate: DecodedComponent, below: Option<DecodedComponent>,
          above: Option<DecodedComponent>)
    returns (r: Result<(), GateError>)
    requires below.Some? ==> Lt(below.value.version, candidate.version)
    requires above.Some? ==> Lt(candidate.version, above.value.version)
    ensures r.Ok? <==> && (below.Some? ==> WorldsCompatible(pair, below.value.wasm, candidate.wasm))
                       && (above.Some? ==> WorldsCompatible(pair, candidate.wasm, above.value.wasm))
    ensures r.Err? ==> || (below.Some? && FitsError(pair, below.value, candidate, r.error))
                       || (above.Some? && FitsError(pair, candidate, above.value, r.error))
  {
    var series := Present(below) + Present(above);
    if series == [] {
      return Ok(());
    }
    series := series + [candidate];
    SortedSeries(candidate, below, above);
    series := Sort(ByVersion, series);
    var i := 0;
    while i + 1 < |series|
      invariant 0 <= i < |series|
      invariant forall j :: 0 <= j < i ==> WorldsCompatible(pair, series[j].wasm, series[j + 1].wasm)
    {
      r := SemverCheck(pair, series[i], series[i + 1]);
      if r.Err? {
        return;
      }
      i := i + 1;
    }
    assert below.Some? ==> WorldsCompatible(pair, series[0].wasm, series[1].wasm);
    assert above.Some? ==> WorldsCompatible(pair, series[|series| - 2].wasm, series[|series| - 2 + 1].wasm);
    return Ok(());
  }

  function Fetch(releases: Releases, package: PackageRef, v: Option<VersionInfo>): Option<DecodedComponent>
    requires v.Some? ==> v.value.version in releases
  {
    if v.None? then None else Some(DecodedComponent(package, v.value.version, releases[v.value.version]))
  }

  /** The list holds exactly the releases in the candidate's series. */
  ghost predicate Lists(listed: seq<VersionInfo>, releases: Releases, version: Version) {
    forall v :: v in listed <==> v.version in releases && InSeries(version, v.version) && !v.yanked
  }

  /** What the search finds in the list is what the releases have next to the candidate. */
  lemma NeighborsOfListing(listed: seq<VersionInfo>, releases: Releases, version: Version)
    requires Lists(listed, releases, version)
    ensures AlreadyListed(releases, version) <==> exists v :: v in listed && v.version == version
    ensures forall v :: GreatestBelow(listed, version, v) ==> NextBelow(releases, version, v.version)
    ensures forall v :: LeastAbove(listed, version, v) ==> NextAbove(releases, version, v.version)
  {
    forall w | w in releases && InSeries(version, w)
      ensures VersionInfo(w, false) in listed
    {
    }
  }

  /** There is one next release below and one above. */
  lemma OnlyNeighbors(listed: seq<VersionInfo>, releases: Releases, version: Version,
          below: Option<VersionInfo>, above: Option<VersionInfo>)
    requires Lists(listed, releases, version) && ExactNeighbors(listed, version, below, above)
    ensures forall u :: NextBelow(releases, version, u) ==> below.Some? && below.value.version == u
    ensures forall u :: NextAbove(releases, version, u) ==> above.Some? && above.value.version == u
  {
    NeighborsOfListing(listed, releases, version);
    forall u | NextBelow(releases, version, u)
      ensures below.Some? && below.value.version == u
    {
      assert VersionInfo(u, false) in listed;
      if below.Some? {
        VersionOrder(u, below.value.version, u);
      }
    }
    forall u | NextAbove(releases, version, u)
      ensures above.Some? && above.value.version == u
    {
      assert VersionInfo(u, false) in listed;
      if above.Some? {
        VersionOrder(u, above.value.version, u);
      }
    }
  }

  /** The listing of the candidate's series. */
  method FetchSemverSeries(source: LocalBackend, package: PackageRef, version: Version)
    returns (listed: seq<VersionInfo>)
    ensures SortedBy(AtLeast, listed) && Lists(listed, ReleasesOf(source.store, package), version)
  {
    var listing := source.ListAllVersions(package);
    listed := ListMatchingVersions(listing, SeriesMask(version), Descending);
    forall v
      ensures v in listed <==>
              v.version in ReleasesOf(source.store, package) && InSeries(version, v.version) && !v.yanked
    {
      if listing.Some? {
        assert v in listed <==> v in multiset(listed);
        assert v in listing.value <==> v in multiset(listing.value);
      }
    }
  }

  /** The pre-flight checks. */
  method Preflight(pair: PairCheck, source: LocalBackend, candidate: DecodedComponent)
    returns (r: Result<(), GateError>)
    ensures r.Ok? <==> Accepts(pair, ReleasesOf(source.store, candidate.package), candidate.version, candidate.wasm)
    ensures r == Err(VersionAlreadyExists(candidate.package, candidate.version)) <==>
            AlreadyListed(ReleasesOf(source.store, candidate.package), candidate.version)
    ensures r.Err? && !r.error.VersionAlreadyExists? ==>
              FitsNeighbor(pair, ReleasesOf(source.store, candidate.package), candidate, r.error)
    ensures r.Err? && r.error.VersionAlreadyExists? ==>
        r.error == VersionAlreadyExists(candidate.package, candidate.version)
  {
    var version := candidate.version;
    var releases := ReleasesOf(source.store, candidate.package);
    var listed := FetchSemverSeries(source, candidate.package, version);
    var found, neighbors := FindNeighbors(listed, version);
    NeighborsOfListing(listed, releases, version);
    if found {
      return Err(VersionAlreadyExists(candidate.package, version));
    }
    var below := Fetch(releases, candidate.package, neighbors[0]);
    var above := Fetch(releases, candidate.package, neighbors[1]);
    OnlyNeighbors(listed, releases, version, neighbors[0], neighbors[1]);
    r := CheckSeries(pair, candidate, below, above);
  }

  /** Publishing a release, with the gate in front unless it is switched off. */
  method PublishReleaseData(pair: PairCheck, source: LocalBackend, candidate: DecodedComponent, opts: PublishOpts)
    returns (r: Result<(PackageRef, Version), GateError>)
    modifies source
    ensures var releases := ReleasesOf(old(source.store), candidate.package);
            r.Ok? <==> opts.skipSemverCheck || Accepts(pair, releases, candidate.version, candidate.wasm)
    ensures r.Ok? ==> r.value == (candidate.package, candidate.version)
    ensures r.Ok? ==>
        source.store == Stored(old(source.store), candidate.package, candidate.version, candidate.wasm, opts.dryRun)
    ensures r.Err? ==> source.store == old(source.store)
    ensures opts.dryRun ==> forall q :: ReleasesOf(source.store, q) == ReleasesOf(old(source.store), q)
    ensures r.Ok? && !opts.dryRun ==>
        ReleasesOf(source.store, candidate.package) ==
        ReleasesOf(old(source.store), candidate.package)[candidate.version := candidate.wasm]
    ensures forall q :: q != candidate.package ==> ReleasesOf(source.store, q) == ReleasesOf(old(source.store), q)
    ensures !opts.skipSemverCheck ==> source.store == Step(pair, old(source.store), Request(candidate, opts.dryRun))
    ensures r == Err(VersionAlreadyExists(candidate.package, candidate.version)) <==>
            !opts.skipSemverCheck && AlreadyListed(ReleasesOf(old(source.store), candidate.package), candidate.version)
    ensures r.Err? && !r.error.VersionAlreadyExists? ==>
              FitsNeighbor(pair, ReleasesOf(old(source.store), candidate.package), candidate, r.error)
  {
    if !opts.skipSemverCheck {
      var checked := Preflight(pair, source, candidate);
      if checked.Err? {
        return Err(checked.error);
      }
    }
    source.Publish(candidate.package, candidate.version, candidate.wasm, opts.dryRun);
    return Ok((candidate.package, candidate.version));
  }

  /**
   Exactly when a stored version is refused as already existing: not if it is a prerelease, unless one of
   0.0.Z, because the mask of the series leaves prereleases out of the listing.
   */
  lemma DuplicateRefusedExactly(releases: Releases, version: Version)
    requires version in releases
    ensures AlreadyListed(releases, version) <==> version.Stable() || (version.major == 0 && version.minor == 0)
  {
    SeriesMaskMatches(version, version);
    PreOrder(version.pre, version.pre, version.pre);
  }

  // ---------- runs of gated publishes ----------

  /** u and v are consecutive stable releases of one series. */
  ghost predicate Consecutive(releases: Releases, u: Version, v: Version) {
    && u in releases && v in releases && u.Stable() && v.Stable() && SameSeries(u, v) && Lt(u, v)
    && forall w :: w in releases && w.Stable() && SameSeries(u, w) ==> !(Lt(u, w) && Lt(w, v))
  }

  /** In each series, any two consecutive stable releases pass the check. */
  ghost predicate SeriesCompatible(pair: PairCheck, releases: Releases) {
    forall u, v :: Consecutive(releases, u, v) ==> WorldsCompatible(pair, releases[u], releases[v])
  }

  /** The neighbours of a stable candidate are those it would be consecutive with. */
  lemma NeighborsAreConsecutive(releases: Releases, version: Version, wasm: Decoded, u: Version)
    requires version.Stable() && version !in releases
    ensures NextBelow(releases, version, u) <==> Consecutive(releases[version := wasm], u, version)
    ensures NextAbove(releases, version, u) <==> Consecutive(releases[version := wasm], version, u)
  {
    var releases' := releases[version := wasm];
    forall w
      ensures InSeries(version, w) <==> SameSeries(version, w) && w.Stable()
      ensures SameSeries(u, w) && SameSeries(u, version) ==> SameSeries(version, w)
    {
      SeriesMaskMatches(version, w);
    }
    VersionOrder(version, version, version);
    if NextBelow(releases, version, u) {
      forall w | w in releases' && w.Stable() && SameSeries(u, w)
        ensures !(Lt(u, w) && Lt(w, version))
      {
      }
    }
    if Consecutive(releases', u, version) {
      forall w | w in releases && InSeries(version, w) && Lt(w, version)
        ensures !Lt(u, w)
      {
        assert w in releases' && SameSeries(u, w);
      }
    }
    if NextAbove(releases, version, u) {
      forall w | w in releases' && w.Stable() && SameSeries(version, w)
        ensures !(Lt(version, w) && Lt(w, u))
      {
      }
    }
    if Consecutive(releases', version, u) {
      forall w | w in releases && InSeries(version, w) && Lt(version, w)
        ensures !Lt(w, u)
      {
        assert w in releases';
      }
    }
  }

  /** The gate is exact: it lets a new stable version in if and only if the series stay compatible. */
  lemma GateExact(pair: PairCheck, releases: Releases, version: Version, wasm: Decoded)
    requires SeriesCompatible(pair, releases) && version.Stable() && version !in releases
    ensures Accepts(pair, releases, version, wasm) <==> SeriesCompatible(pair, releases[version := wasm])
  {
    var releases' := releases[version := wasm];
    forall u
      ensures NextBelow(releases, version, u) <==> Consecutive(releases', u, version)
      ensures NextAbove(releases, version, u) <==> Consecutive(releases', version, u)
    {
      NeighborsAreConsecutive(releases, version, wasm, u);
    }
    VersionOrder(version, version, version);
    forall u, v | Consecutive(releases', u, v) && u != version && v != version
      ensures Consecutive(releases, u, v)
    {
      forall w | w in releases && w.Stable() && SameSeries(u, w)
        ensures !(Lt(u, w) && Lt(w, v))
      {
        assert w in releases';
      }
    }
    if Accepts(pair, releases, version, wasm) {
      forall u, v | Consecutive(releases', u, v)
        ensures WorldsCompatible(pair, releases'[u], releases'[v])
      {
      }
    }
    if SeriesCompatible(pair, releases') {
      forall u | NextBelow(releases, version, u)
        ensures WorldsCompatible(pair, releases[u], wasm)
      {
        assert Consecutive(releases', u, version);
      }
      forall u | NextAbove(releases, version, u)
        ensures WorldsCompatible(pair, wasm, releases[u])
      {
        assert Consecutive(releases', version, u);
      }
    }
  }

  /** Storing a prerelease does not touch the stable releases. */
  lemma PrereleaseHarmless(pair: PairCheck, releases: Releases, version: Version, wasm: Decoded)
    requires SeriesCompatible(pair, releases) && !version.Stable()
    ensures SeriesCompatible(pair, releases[version := wasm])
  {
  }

  datatype Request = Request(candidate: DecodedComponent, dryRun: bool)

  /** What a gated publish does to the store, whether it succeeds or not. */
  ghost function Step(pair: PairCheck, store: Store, request: Request): Store {
    var c := request.candidate;
    if Accepts(pair, ReleasesOf(store, c.package), c.version, c.wasm)
    then Stored(store, c.package, c.version, c.wasm, request.dryRun)
    else store
  }

  ghost function Run(pair: PairCheck, requests: seq<Request>): Store {
    if requests == [] then map[]
    else Step(pair, Run(pair, requests[..|requests| - 1]), requests[|requests| - 1])
  }

  /**
   What is stored for a stable version, or for one of 0.0.Z, is never replaced by a gated publish, nor
   is any release removed by one.
   */
  lemma ReleaseNeverReplaced(pair: PairCheck, store: Store, request: Request, package: PackageRef, version: Version)
    requires version in ReleasesOf(store, package)
    ensures var before, after := ReleasesOf(store, package), ReleasesOf(Step(pair, store, request), package);
            && version in after
            && (version.Stable() || (version.major == 0 && version.minor == 0) ==> after[version] == before[version])
  {
    DuplicateRefusedExactly(ReleasesOf(store, package), version);
  }

  /** So over any run: such a release stays what it was first published as. */
  lemma {:induction false} ReleasesStay(pair: PairCheck, requests: seq<Request>, n: nat, package: PackageRef,
          version: Version)
    requires n <= |requests| && version in ReleasesOf(Run(pair, requests[..n]), package)
    ensures version in ReleasesOf(Run(pair, requests), package)
    ensures version.Stable() || (version.major == 0 && version.minor == 0) ==>
        ReleasesOf(Run(pair, requests), package)[version] == ReleasesOf(Run(pair, requests[..n]), package)[version]
  {
    if n == |requests| {
      assert requests[..n] == requests;
    } else {
      var before := requests[..|requests| - 1];
      assert before[..n] == requests[..n];
      ReleasesStay(pair, before, n, package, version);
      ReleaseNeverReplaced(pair, Run(pair, before), requests[|requests| - 1], package, version);
    }
  }

  /**
   Publishing a stored version again, in any registry: it is let through exactly when it is a prerelease,
   not one of 0.0.Z, and passes the check against the stable releases next to it; and then its file is
   replaced, and nothing else changes.
   */
  lemma RepublishedExactly(pair: PairCheck, store: Store, candidate: DecodedComponent)
    requires candidate.version in ReleasesOf(store, candidate.package)
    ensures var (version, wasm) := (candidate.version, candidate.wasm);
            var releases := ReleasesOf(store, candidate.package);
            var after := ReleasesOf(Step(pair, store, Request(candidate, false)), candidate.package);
            var accepted :=
              && !version.Stable() && !(version.major == 0 && version.minor == 0)
              && (forall u :: StableBelow(releases, version, u) ==> WorldsCompatible(pair, releases[u], wasm))
              && (forall u :: StableAbove(releases, version, u) ==> WorldsCompatible(pair, wasm, releases[u]));
            && (Accepts(pair, releases, version, wasm) <==> accepted)
            && after == if accepted then releases[version := wasm] else releases
  {
    var version, releases := candidate.version, ReleasesOf(store, candidate.package);
    DuplicateRefusedExactly(releases, version);
    if !AlreadyListed(releases, version) {
      forall u
        ensures NextBelow(releases, version, u) <==> StableBelow(releases, version, u)
        ensures NextAbove(releases, version, u) <==> StableAbove(releases, version, u)
      {
        PrereleaseNeighbors(releases, version, u);
      }
    }
  }

  /** The greatest stable release of the series below a version. */
  ghost predicate StableBelow(releases: Releases, version: Version, u: Version) {
    && u in releases && u.Stable() && SameSeries(version, u) && Lt(u, version)
    && forall w :: w in releases && w.Stable() && SameSeries(version, w) && Lt(w, version) ==> !Lt(u, w)
  }

  /** The least stable release of the series above a version. */
  ghost predicate StableAbove(releases: Releases, version: Version, u: Version) {
    && u in releases && u.Stable() && SameSeries(version, u) && Lt(version, u)
    && forall w :: w in releases && w.Stable() && SameSeries(version, w) && Lt(version, w) ==> !Lt(w, u)
  }

  /** The neighbours of a prerelease that is not one of 0.0.Z are stable. */
  lemma PrereleaseNeighbors(releases: Releases, version: Version, u: Version)
    requires !version.Stable() && !(version.major == 0 && version.minor == 0)
    ensures NextBelow(releases, version, u) <==> StableBelow(releases, version, u)
    ensures NextAbove(releases, version, u) <==> StableAbove(releases, version, u)
  {
    forall w
      ensures InSeries(version, w) <==> SameSeries(version, w) && w.Stable()
    {
      SeriesMaskMatches(version, w);
    }
  }

  /** So from an empty registry, a prerelease published twice is replaced. */
  lemma PrereleaseReplaced(pair: PairCheck, package: PackageRef, version: Version, a: Decoded, b: Decoded)
    requires !version.Stable() && !(version.major == 0 && version.minor == 0)
    ensures var requests := [Request(DecodedComponent(package, version, a), false),
                             Request(DecodedComponent(package, version, b), false)];
            && ReleasesOf(Run(pair, requests[..1]), package) == map[version := a]
            && ReleasesOf(Run(pair, requests), package) == map[version := b]
  {
    var requests := [Request(DecodedComponent(package, version, a), false),
                     Request(DecodedComponent(package, version, b), false)];
    assert requests[..1][..0] == [] && requests[..1] == [requests[0]];
    assert ReleasesOf(Run(pair, requests[..1]), package) == map[version := a];
    DuplicateRefusedExactly(map[version := a], version);
  }

  /**
   What a gated publish does to the releases of each package: a dry run and a refused publish nothing, an
   accepted publish adds or replaces the candidate and touches no other package.
   */
  lemma StepEffect(pair: PairCheck, store: Store, request: Request, q: PackageRef)
    ensures var c := request.candidate;
            var accepted := Accepts(pair, ReleasesOf(store, c.package), c.version, c.wasm);
            ReleasesOf(Step(pair, store, request), q) ==
            if request.dryRun || !accepted || q != c.package then ReleasesOf(store, q)
            else ReleasesOf(store, q)[c.version := c.wasm]
  {
  }

  /** Over a run, dry runs leave no trace: leaving them all out gives the same releases. */
  lemma {:induction false} DryRunsLeaveNoTrace(pair: PairCheck, requests: seq<Request>, q: PackageRef)
    ensures ReleasesOf(Run(pair, requests), q) == ReleasesOf(Run(pair, RealOnes(requests)), q)
    decreases |requests|
  {
    if requests != [] {
      var before, last := requests[..|requests| - 1], requests[|requests| - 1];
      DryRunsLeaveNoTrace(pair, before, q);
      DryRunsLeaveNoTrace(pair, before, last.candidate.package);
      StepEffect(pair, Run(pair, before), last, q);
      if !last.dryRun {
        var kept := RealOnes(before);
        assert RealOnes(requests) == kept + [last] && (kept + [last])[..|kept|] == kept;
        assert Run(pair, kept + [last]) == Step(pair, Run(pair, kept), last);
        StepEffect(pair, Run(pair, kept), last, q);
      } else {
        assert RealOnes(requests) == RealOnes(before);
      }
    }
  }

  function RealOnes(requests: seq<Request>): seq<Request> {
    if requests == [] then []
    else
      var last := requests[|requests| - 1];
      RealOnes(requests[..|requests| - 1]) + if last.dryRun then [] else [last]
  }

  lemma StepKeepsCompatible(pair: PairCheck, store: Store, request: Request, package: PackageRef)
    requires SeriesCompatible(pair, ReleasesOf(store, package))
    ensures SeriesCompatible(pair, ReleasesOf(Step(pair, store, request), package))
  {
    var c := request.candidate;
    var releases := ReleasesOf(store, package);
    if package == c.package && Accepts(pair, releases, c.version, c.wasm) && !request.dryRun {
      if c.version.Stable() {
        SeriesMaskMatches(c.version, c.version);
        GateExact(pair, releases, c.version, c.wasm);
      } else {
        PrereleaseHarmless(pair, releases, c.version, c.wasm);
      }
    }
  }

  /** After any sequence of gated publishes, from an empty registry, every series is compatible. */
  lemma {:induction false} GatedRunsStayCompatible(pair: PairCheck, requests: seq<Request>, package: PackageRef)
    ensures SeriesCompatible(pair, ReleasesOf(Run(pair, requests), package))
  {
    if requests != [] {
      var before := requests[..|requests| - 1];
      GatedRunsStayCompatible(pair, before, package);
      StepKeepsCompatible(pair, Run(pair, before), requests[|requests| - 1], package);
    }
  }

  /** The stable releases of the series strictly between two versions. */
  ghost function Between(releases: Releases, u: Version, v: Version): set<Version> {
    set w | w in releases && w.Stable() && SameSeries(u, w) && Lt(u, w) && Lt(w, v)
  }

  /** Along a compatible series, adjacent or not, no world is ever lost. */
  lemma {:induction false} WorldsKept(pair: PairCheck, releases: Releases, u: Version, v: Version)
    requires SeriesCompatible(pair, releases)
    requires u in releases && v in releases && u.Stable() && v.Stable() && SameSeries(u, v) && Lt(u, v)
    ensures releases[u].Worlds() <= releases[v].Worlds()
    decreases Between(releases, u, v)
  {
    var between := Between(releases, u, v);
    if between == {} {
      forall w | w in releases && w.Stable() && SameSeries(u, w)
        ensures !(Lt(u, w) && Lt(w, v))
      {
        assert w !in between;
      }
      assert Consecutive(releases, u, v);
    } else {
      var m :| m in between;
      VersionOrder(m, m, m);
      forall w | w in Between(releases, u, m)
        ensures w in between && w != m
      {
        VersionOrder(w, m, v);
      }
      forall w | w in Between(releases, m, v)
        ensures w in between && w != m
      {
        VersionOrder(u, m, w);
      }
      assert m !in Between(releases, u, m) && m !in Between(releases, m, v);
      WorldsKept(pair, releases, u, m);
      WorldsKept(pair, releases, m, v);
    }
  }

  /** In any registry reached by gated publishes, each world of an older release is in every newer one of its series. */
  lemma WorldsMonotone(pair: PairCheck, requests: seq<Request>, package: PackageRef, u: Version, v: Version)
    requires var releases := ReleasesOf(Run(pair, requests), package);
             u in releases && v in releases && u.Stable() && v.Stable() && InSeries(u, v) && Lt(u, v)
    ensures var releases := ReleasesOf(Run(pair, requests), package);
            releases[u].Worlds() <= releases[v].Worlds()
  {
    GatedRunsStayCompatible(pair, requests, package);
    SeriesMaskMatches(u, v);
    WorldsKept(pair, ReleasesOf(Run(pair, requests), package), u, v);
  }
}
