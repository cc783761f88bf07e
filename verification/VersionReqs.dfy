/**
 Version requirements as the `semver` crate decides them: a list of comparators, all of which
 must hold, and a prerelease version only where a comparator names a prerelease of the very
 same major.minor.patch.
 */
module VersionReqs {
  import opened Wrappers
  import opened Versions

  datatype Op = Exact | Greater | GreaterEq | Less | LessEq | Tilde | Caret | Wildcard

  datatype Comparator = Comparator(op: Op, major: nat, minor: Option<nat>, patch: Option<nat>, pre: seq<Identifier>)

  datatype VersionReq = VersionReq(comparators: seq<Comparator>)

  /** The requirement written `*`. */
  const ANY_VERSION := VersionReq([])

  predicate MatchesExact(c: Comparator, v: Version) {
    && v.major == c.major
    && (c.minor.Some? ==> v.minor == c.minor.value)
    && (c.patch.Some? ==> v.patch == c.patch.value)
    && v.pre == c.pre
  }

  predicate MatchesGreater(c: Comparator, v: Version) {
    if v.major != c.major then v.major > c.major
    else if c.minor.None? then false
    else if v.minor != c.minor.value then v.minor > c.minor.value
    else if c.patch.None? then false
    else if v.patch != c.patch.value then v.patch > c.patch.value
    else ComparePre(v.pre, c.pre).Greater?
  }

  predicate MatchesLess(c: Comparator, v: Version) {
    if v.major != c.major then v.major < c.major
    else if c.minor.None? then false
    else if v.minor != c.minor.value then v.minor < c.minor.value
    else if c.patch.None? then false
    else if v.patch != c.patch.value then v.patch < c.patch.value
    else ComparePre(v.pre, c.pre).Less?
  }

  predicate MatchesTilde(c: Comparator, v: Version) {
    if v.major != c.major then false
    else if c.minor.Some? && v.minor != c.minor.value then false
    else if c.patch.Some? && v.patch != c.patch.value then v.patch > c.patch.value
    else !ComparePre(v.pre, c.pre).Less?
  }

  predicate MatchesCaret(c: Comparator, v: Version) {
    if v.major != c.major then false
    else if c.minor.None? then true
    else if c.patch.None? then (if c.major > 0 then v.minor >= c.minor.value else v.minor == c.minor.value)
    else if c.major > 0 && v.minor != c.minor.value then v.minor > c.minor.value
    else if v.minor != c.minor.value then false
    else if c.major == 0 && c.minor.value == 0 && v.patch != c.patch.value then false
    else if v.patch != c.patch.value then v.patch > c.patch.value
    else !ComparePre(v.pre, c.pre).Less?
  }

  predicate MatchesComparator(c: Comparator, v: Version) {
    match c.op
    case Exact => MatchesExact(c, v)
    case Wildcard => MatchesExact(c, v)
    case Greater => MatchesGreater(c, v)
    case GreaterEq => MatchesExact(c, v) || MatchesGreater(c, v)
    case Less => MatchesLess(c, v)
    case LessEq => MatchesExact(c, v) || MatchesLess(c, v)
    case Tilde => MatchesTilde(c, v)
    case Caret => MatchesCaret(c, v)
  }

  predicate PreIsCompatible(c: Comparator, v: Version) {
    c.major == v.major && c.minor == Some(v.minor) && c.patch == Some(v.patch) && c.pre != []
  }

  predicate Matches(req: VersionReq, v: Version) {
    && (forall c :: c in req.comparators ==> MatchesComparator(c, v))
    && (v.pre == [] || exists c :: c in req.comparators && PreIsCompatible(c, v))
  }

  // ---------- what comparators accept ----------

  /** Build metadata aside, the order of a version and a base of the same core is that of their prereleases. */
  lemma LtAroundBase(v: Version, base: Version)
    requires v.build == [] && base.build == []
    ensures Lt(v, base) <==>
            || v.major < base.major
            || (v.major == base.major && v.minor < base.minor)
            || (v.major == base.major && v.minor == base.minor && v.patch < base.patch)
            || (v.major == base.major && v.minor == base.minor && v.patch == base.patch
                && ComparePre(v.pre, base.pre).Less?)
    ensures Lt(base, v) <==> v != base && !Lt(v, base)
  {
    PreOrder(v.pre, base.pre, base.pre);
    VersionOrder(v, base, base);
  }

  /**
   A comparator with major, minor and patch, as a range of versions without build metadata: `~` goes up to
   the next minor version, `^` up to the next version that differs in its leftmost number other than 0.
   */
  lemma FullComparatorMeans(c: Comparator, version: Version)
    requires c.minor.Some? && c.patch.Some?
    ensures var v := version.(build := []);
            var base := Version(c.major, c.minor.value, c.patch.value, c.pre, []);
            MatchesComparator(c, version) <==>
            match c.op
            case Exact => v == base
            case Wildcard => v == base
            case Greater => Lt(base, v)
            case GreaterEq => !Lt(v, base)
            case Less => Lt(v, base)
            case LessEq => !Lt(base, v)
            case Tilde => !Lt(v, base) && v.major == base.major && v.minor == base.minor
            case Caret =>
              && !Lt(v, base) && v.major == base.major
              && (base.major == 0 ==> v.minor == base.minor)
              && (base.major == 0 && base.minor == 0 ==> v.patch == base.patch)
  {
    var v := version.(build := []);
    var base := Version(c.major, c.minor.value, c.patch.value, c.pre, []);
    LtAroundBase(v, base);
    PreOrder(v.pre, base.pre, base.pre);
    PreOrder(base.pre, v.pre, v.pre);
  }

  /** A comparator without a patch, or without a minor and a patch: what is left out can be anything. */
  lemma PartialComparatorMeans(c: Comparator, v: Version)
    requires c.pre == [] && c.patch.None? && v.Stable()
    ensures MatchesComparator(c, v) <==>
            if c.minor.None? then
              match c.op
              case Exact => v.major == c.major
              case Wildcard => v.major == c.major
              case Greater => v.major > c.major
              case GreaterEq => v.major >= c.major
              case Less => v.major < c.major
              case LessEq => v.major <= c.major
              case Tilde => v.major == c.major
              case Caret => v.major == c.major
            else
              match c.op
              case Exact => v.major == c.major && v.minor == c.minor.value
              case Wildcard => v.major == c.major && v.minor == c.minor.value
              case Greater => v.major > c.major || (v.major == c.major && v.minor > c.minor.value)
              case GreaterEq => v.major > c.major || (v.major == c.major && v.minor >= c.minor.value)
              case Less => v.major < c.major || (v.major == c.major && v.minor < c.minor.value)
              case LessEq => v.major < c.major || (v.major == c.major && v.minor <= c.minor.value)
              case Tilde => v.major == c.major && v.minor == c.minor.value
              case Caret =>
                v.major == c.major && v.minor >= c.minor.value && (c.major == 0 ==> v.minor == c.minor.value)
  {
  }

  /** A prerelease needs a comparator that names a prerelease of the same major, minor and patch. */
  lemma PrereleaseNamed(req: VersionReq, v: Version)
    ensures Matches(req, v) && !v.Stable() ==> exists c ::
              && c in req.comparators && MatchesComparator(c, v)
              && c.major == v.major && c.minor == Some(v.minor) && c.patch == Some(v.patch) && c.pre != []
    ensures !Matches(req, v) ==>
        || (exists c :: c in req.comparators && !MatchesComparator(c, v))
        || (v.pre != [] && forall c :: c in req.comparators ==>
              c.pre == [] || c.major != v.major || c.minor != Some(v.minor) || c.patch != Some(v.patch))
    ensures Matches(req, v) ==> forall c :: c in req.comparators ==> MatchesComparator(c, v)
  {
  }

  /** The requirement `=v`; a comparator has no build metadata. */
  function ExactReq(v: Version): VersionReq {
    VersionReq([Comparator(Exact, v.major, Some(v.minor), Some(v.patch), v.pre)])
  }

  /** `=v` accepts exactly the versions that differ from `v` in build metadata only. */
  lemma ExactReqMatches(v: Version, w: Version)
    ensures Matches(ExactReq(v), w) <==>
            w.major == v.major && w.minor == v.minor && w.patch == v.patch && w.pre == v.pre
    ensures Matches(ExactReq(v), w) <==> w.SameUpToBuild(v)
  {
    var c := Comparator(Exact, v.major, Some(v.minor), Some(v.patch), v.pre);
    assert ExactReq(v).comparators == [c];
    assert c in ExactReq(v).comparators;
  }

  /** The requirement that a dependency of a WIT file on a package, with or without a version, turns into. */
  function RequirementOf(version: Option<Version>): VersionReq {
    if version.Some? then ExactReq(version.value) else ANY_VERSION
  }

  /** With a version it asks for that version up to build metadata, without one for any stable version. */
  lemma RequirementOfMatches(version: Option<Version>, w: Version)
    ensures Matches(RequirementOf(version), w) <==> if version.Some? then w.SameUpToBuild(version.value) else w.Stable()
  {
    if version.Some? {
      ExactReqMatches(version.value, w);
    }
  }

  /** No requirement can tell apart two versions that differ in build metadata only. */
  lemma MatchesIgnoresBuild(req: VersionReq, v: Version, w: Version)
    requires v.SameUpToBuild(w)
    ensures Matches(req, v) == Matches(req, w)
  {
  }
}
