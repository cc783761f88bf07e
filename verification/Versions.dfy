/**
 Semantic versions and their order: section 11 of Semantic Versioning 2.0.0, with the build
 metadata as a last tie-break, so that the order is total on versions.
 */
module Versions {
  datatype Ordering = Less | Equal | Greater
  {
    function Flip(): Ordering {
      match this
      case Less => Greater
      case Equal => Equal
      case Greater => Less
    }

    function Then(next: Ordering): Ordering {
      if this == Equal then next else this
    }
  }

  /** The laws of a total order for a three-way comparison. */
  ghost predicate TotalOrder<T(!new)>(cmp: (T, T) -> Ordering) {
    && (forall a, b :: cmp(a, b) == Equal <==> a == b)
    && (forall a, b :: cmp(b, a) == cmp(a, b).Flip())
    && (forall a, b, c :: cmp(a, b) == Less && cmp(b, c) == Less ==> cmp(a, c) == Less)
  }

  function CompareInt(a: int, b: int): Ordering {
    if a < b then Less else if a == b then Equal else Greater
  }

  function CompareChar(a: char, b: char): Ordering {
    CompareInt(a as int, b as int)
  }

  /** Lexicographic comparison; a proper prefix is smaller. */
  function CompareSeq<T>(cmp: (T, T) -> Ordering, a: seq<T>, b: seq<T>): Ordering {
    if a == [] || b == [] then CompareInt(|a|, |b|)
    else cmp(a[0], b[0]).Then(CompareSeq(cmp, a[1..], b[1..]))
  }

  /** A dot-separated identifier. `zeros` counts leading zeros, which only build metadata may have. */
  datatype Identifier = Numeric(value: nat, zeros: nat) | Alphanumeric(text: string)

  /** Numeric identifiers compare by value and are below alphanumeric ones. */
  function CompareIdentifier(a: Identifier, b: Identifier): Ordering {
    match (a, b)
    case (Numeric(v, z), Numeric(w, y)) => CompareInt(v, w).Then(CompareInt(z, y))
    case (Numeric(_, _), Alphanumeric(_)) => Less
    case (Alphanumeric(_), Numeric(_, _)) => Greater
    case (Alphanumeric(s), Alphanumeric(t)) => CompareSeq(CompareChar, s, t)
  }

  function CompareBuild(a: seq<Identifier>, b: seq<Identifier>): Ordering {
    CompareSeq(CompareIdentifier, a, b)
  }

  /** A version without a prerelease tag is above every version that has one. */
  function ComparePre(a: seq<Identifier>, b: seq<Identifier>): Ordering {
    if a == [] || b == [] then CompareInt(|b|, |a|)
    else CompareSeq(CompareIdentifier, a, b)
  }

  datatype Version = Version(major: nat, minor: nat, patch: nat, pre: seq<Identifier>, build: seq<Identifier>)
  {
    predicate Stable() { pre == [] }

    /** Equality that ignores build metadata. */
    predicate SameUpToBuild(other: Version) {
      major == other.major && minor == other.minor && patch == other.patch && pre == other.pre
    }
  }

  function CompareCore(a: Version, b: Version): Ordering {
    CompareInt(a.major, b.major).Then(CompareInt(a.minor, b.minor)).Then(CompareInt(a.patch, b.patch))
  }

  function Compare(a: Version, b: Version): Ordering {
    CompareCore(a, b).Then(ComparePre(a.pre, b.pre)).Then(CompareBuild(a.build, b.build))
  }

  predicate Lt(a: Version, b: Version) {
    Compare(a, b) == Less
  }

  // ---------- what the order means ----------

  /** The first difference decides; a proper prefix is smaller. */
  lemma {:induction false} CompareSeqLess<T(!new)>(cmp: (T, T) -> Ordering, a: seq<T>, b: seq<T>)
    requires forall x, y :: cmp(x, y) == Equal <==> x == y
    ensures CompareSeq(cmp, a, b) == Less <==>
            exists i: nat :: i <= |a| && i < |b| && a[..i] == b[..i] && (i == |a| || cmp(a[i], b[i]) == Less)
  {
    if a == [] && b != [] {
      assert a[..0] == b[..0];
    }
    if a != [] && b != [] {
      CompareSeqLess(cmp, a[1..], b[1..]);
      if a[0] == b[0] {
        if i: nat :| i < |b| - 1 && i <= |a| - 1 && a[1..][..i] == b[1..][..i]
                     && (i == |a| - 1 || cmp(a[1..][i], b[1..][i]) == Less) {
          assert a[..i + 1] == [a[0]] + a[1..][..i] && b[..i + 1] == [b[0]] + b[1..][..i];
          var j: nat := i + 1;
          assert a[..j] == b[..j] && (j == |a| || cmp(a[j], b[j]) == Less);
        }
        if i: nat :| i <= |a| && i < |b| && a[..i] == b[..i] && (i == |a| || cmp(a[i], b[i]) == Less) {
          assert i > 0;
          var j: nat := i - 1;
          assert a[1..][..j] == a[..i][1..] && b[1..][..j] == b[..i][1..];
          assert j == |a| - 1 || cmp(a[1..][j], b[1..][j]) == Less;
        }
      } else if cmp(a[0], b[0]) == Less {
        assert a[..0] == b[..0];
      } else if i: nat :| i <= |a| && i < |b| && a[..i] == b[..i] && (i == |a| || cmp(a[i], b[i]) == Less) {
        assert i > 0 ==> a[..i][0] == b[..i][0];
      }
    }
  }

  /** Numbers by value, numbers below text, text by its first different character, a proper prefix below. */
  lemma IdentifierLess(x: Identifier, y: Identifier)
    ensures CompareIdentifier(x, y) == Less <==>
            match (x, y)
            case (Numeric(v, z), Numeric(w, u)) => v < w || (v == w && z < u)
            case (Numeric(_, _), Alphanumeric(_)) => true
            case (Alphanumeric(_), Numeric(_, _)) => false
            case (Alphanumeric(s), Alphanumeric(t)) =>
              exists i: nat :: i <= |s| && i < |t| && s[..i] == t[..i] && (i == |s| || s[i] < t[i])
  {
    if x.Alphanumeric? && y.Alphanumeric? {
      CompareSeqLess(CompareChar, x.text, y.text);
    }
  }

  /** A prerelease is below no prerelease; of two, the first different identifier decides. */
  lemma PreLess(a: seq<Identifier>, b: seq<Identifier>)
    ensures ComparePre(a, b) == Less <==>
            && a != []
            && (b == [] || exists i: nat ::
                  i <= |a| && i < |b| && a[..i] == b[..i] && (i == |a| || CompareIdentifier(a[i], b[i]) == Less))
  {
    IdentifierOrder();
    CompareSeqLess(CompareIdentifier, a, b);
  }

  /**
   Precedence by the fields of two versions: major, minor and patch as numbers, then the prerelease, then,
   where all of that is equal, the build metadata.
   */
  lemma LtByFields(a: Version, b: Version)
    ensures Lt(a, b) <==>
            || a.major < b.major
            || (a.major == b.major && a.minor < b.minor)
            || (a.major == b.major && a.minor == b.minor && a.patch < b.patch)
            || (a.major == b.major && a.minor == b.minor && a.patch == b.patch && a.pre != [] && b.pre == [])
            || (a.major == b.major && a.minor == b.minor && a.patch == b.patch && a.pre != []
                && exists i: nat ::
                     && i <= |a.pre| && i < |b.pre| && a.pre[..i] == b.pre[..i]
                     && (i == |a.pre| || CompareIdentifier(a.pre[i], b.pre[i]) == Less))
            || (a.major == b.major && a.minor == b.minor && a.patch == b.patch && a.pre == b.pre
                && exists i: nat ::
                     && i <= |a.build| && i < |b.build| && a.build[..i] == b.build[..i]
                     && (i == |a.build| || CompareIdentifier(a.build[i], b.build[i]) == Less))
  {
    PreLess(a.pre, b.pre);
    PreOrder(a.pre, b.pre, b.pre);
    IdentifierOrder();
    CompareSeqLess(CompareIdentifier, a.build, b.build);
  }

  // ---------- the order is total ----------

  lemma {:induction false} CompareSeqEqual<T(!new)>(cmp: (T, T) -> Ordering, a: seq<T>, b: seq<T>)
    requires TotalOrder(cmp)
    ensures CompareSeq(cmp, a, b) == Equal <==> a == b
    ensures CompareSeq(cmp, b, a) == CompareSeq(cmp, a, b).Flip()
  {
    if a != [] && b != [] {
      CompareSeqEqual(cmp, a[1..], b[1..]);
      assert a == [a[0]] + a[1..] && b == [b[0]] + b[1..];
    }
  }

  lemma {:induction false} CompareSeqTransitive<T(!new)>(cmp: (T, T) -> Ordering, a: seq<T>, b: seq<T>, c: seq<T>)
    requires TotalOrder(cmp)
    requires CompareSeq(cmp, a, b) == Less && CompareSeq(cmp, b, c) == Less
    ensures CompareSeq(cmp, a, c) == Less
  {
    if a != [] {
      if cmp(a[0], b[0]) == Equal && cmp(b[0], c[0]) == Equal {
        CompareSeqTransitive(cmp, a[1..], b[1..], c[1..]);
      }
    }
  }

  lemma CompareSeqTotal<T(!new)>(cmp: (T, T) -> Ordering)
    requires TotalOrder(cmp)
    ensures TotalOrder((a, b) => CompareSeq(cmp, a, b))
  {
    forall a, b {
      CompareSeqEqual<T>(cmp, a, b);
    }
    forall a, b, c | CompareSeq<T>(cmp, a, b) == Less && CompareSeq(cmp, b, c) == Less {
      CompareSeqTransitive(cmp, a, b, c);
    }
  }

  lemma IdentifierOrder()
    ensures TotalOrder(CompareIdentifier)
  {
    CompareSeqTotal(CompareChar);
    var text := (s, t) => CompareSeq(CompareChar, s, t);
    assert TotalOrder(text);
    forall a, b
      ensures CompareIdentifier(a, b) == Equal <==> a == b
      ensures CompareIdentifier(b, a) == CompareIdentifier(a, b).Flip()
    {
      if a.Alphanumeric? && b.Alphanumeric? {
        assert text(a.text, b.text) == CompareSeq(CompareChar, a.text, b.text);
        assert text(b.text, a.text) == CompareSeq(CompareChar, b.text, a.text);
      }
    }
    forall a, b, c | CompareIdentifier(a, b) == Less && CompareIdentifier(b, c) == Less
      ensures CompareIdentifier(a, c) == Less
    {
      if a.Alphanumeric? {
        assert text(a.text, b.text) == Less && text(b.text, c.text) == Less;
        assert text(a.text, c.text) == Less;
      }
    }
  }

  /** What the comparisons of a with b, b with c and a with c have to do with each other. */
  predicate Coherent(ab: Ordering, bc: Ordering, ac: Ordering) {
    && (ab == Equal ==> ac == bc)
    && (bc == Equal ==> ac == ab)
    && (ab == bc ==> ac == ab)
  }

  lemma ThenCoherent(ab: Ordering, bc: Ordering, ac: Ordering, ab': Ordering, bc': Ordering, ac': Ordering)
    requires Coherent(ab, bc, ac) && Coherent(ab', bc', ac')
    ensures Coherent(ab.Then(ab'), bc.Then(bc'), ac.Then(ac'))
  {
  }

  lemma BuildOrder(a: seq<Identifier>, b: seq<Identifier>, c: seq<Identifier>)
    ensures CompareBuild(a, b) == Equal <==> a == b
    ensures CompareBuild(b, a) == CompareBuild(a, b).Flip()
    ensures Coherent(CompareBuild(a, b), CompareBuild(b, c), CompareBuild(a, c))
  {
    IdentifierOrder();
    CompareSeqEqual(CompareIdentifier, a, b);
    CompareSeqEqual(CompareIdentifier, b, c);
    CompareSeqEqual(CompareIdentifier, a, c);
    if CompareBuild(a, b) == Less && CompareBuild(b, c) == Less {
      CompareSeqTransitive(CompareIdentifier, a, b, c);
    } else if CompareBuild(a, b) == Greater && CompareBuild(b, c) == Greater {
      CompareSeqTransitive(CompareIdentifier, c, b, a);
    }
  }

  lemma PreOrder(a: seq<Identifier>, b: seq<Identifier>, c: seq<Identifier>)
    ensures ComparePre(a, b) == Equal <==> a == b
    ensures ComparePre(b, a) == ComparePre(a, b).Flip()
    ensures Coherent(ComparePre(a, b), ComparePre(b, c), ComparePre(a, c))
  {
    BuildOrder(a, b, c);
  }

  lemma CoreOrder(a: Version, b: Version, c: Version)
    ensures CompareCore(a, b) == Equal <==> a.major == b.major && a.minor == b.minor && a.patch == b.patch
    ensures CompareCore(b, a) == CompareCore(a, b).Flip()
    ensures Coherent(CompareCore(a, b), CompareCore(b, c), CompareCore(a, c))
  {
  }

  /** Versions are totally ordered: equality, antisymmetry and transitivity for any three. */
  lemma VersionOrder(a: Version, b: Version, c: Version)
    ensures Compare(a, b) == Equal <==> a == b
    ensures Compare(b, a) == Compare(a, b).Flip()
    ensures Lt(a, b) && Lt(b, c) ==> Lt(a, c)
  {
    CoreOrder(a, b, c);
    PreOrder(a.pre, b.pre, c.pre);
    BuildOrder(a.build, b.build, c.build);
    ThenCoherent(CompareCore(a, b), CompareCore(b, c), CompareCore(a, c),
                 ComparePre(a.pre, b.pre), ComparePre(b.pre, c.pre), ComparePre(a.pre, c.pre));
    ThenCoherent(CompareCore(a, b).Then(ComparePre(a.pre, b.pre)), CompareCore(b, c).Then(ComparePre(b.pre, c.pre)),
                 CompareCore(a, c).Then(ComparePre(a.pre, c.pre)),
                 CompareBuild(a.build, b.build), CompareBuild(b.build, c.build), CompareBuild(a.build, c.build));
  }

  lemma VersionsTotallyOrdered()
    ensures TotalOrder(Compare)
  {
    forall a, b
      ensures Compare(a, b) == Equal <==> a == b
      ensures Compare(b, a) == Compare(a, b).Flip()
    {
      VersionOrder(a, b, b);
    }
    forall a, b, c | Compare(a, b) == Less && Compare(b, c) == Less
      ensures Compare(a, c) == Less
    {
      VersionOrder(a, b, c);
    }
  }
}
