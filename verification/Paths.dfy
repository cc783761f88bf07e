/** Lexical normalisation of Unix paths, given as the components that the standard library yields. */
module Paths {
  datatype Component = RootDir | CurDir | ParentDir | Normal(name: string)

  type Path = seq<Component>

  // ---------- what a path means ----------

  /** A directory is its list of names below the root; `..` at the root stays at the root. */
  function Enter(dir: seq<string>, c: Component): seq<string> {
    match c
    case RootDir => []
    case CurDir => dir
    case ParentDir => if dir == [] then [] else dir[..|dir| - 1]
    case Normal(name) => dir + [name]
  }

  /** The directory that a path leads to from a starting directory. */
  function Walk(start: seq<string>, path: Path): seq<string> {
    if path == [] then start
    else Enter(Walk(start, path[..|path| - 1]), path[|path| - 1])
  }

  /** Where one more component leads. */
  lemma WalkOn(start: seq<string>, path: Path, name: string)
    ensures Walk(start, []) == start
    ensures Walk(start, path + [CurDir]) == Walk(start, path)
    ensures Walk(start, path + [RootDir]) == []
    ensures Walk(start, path + [Normal(name)]) == Walk(start, path) + [name]
    ensures var dir := Walk(start, path);
            Walk(start, path + [ParentDir]) == if dir == [] then [] else dir[..|dir| - 1]
  {
    forall c
      ensures Walk(start, path + [c]) == Enter(Walk(start, path), c)
    {
      assert (path + [c])[..|path|] == path;
    }
  }

  /** The two paths lead to the same directory from everywhere. */
  ghost predicate SameMeaning(p: Path, q: Path) {
    forall start :: Walk(start, p) == Walk(start, q)
  }

  // ---------- canonical form ----------

  /** No `.`; the root only in front; `..` only after nothing but `..`, so never after a root or a name. */
  predicate Canonical(path: Path) {
    forall i :: 0 <= i < |path| ==>
      && path[i] != CurDir
      && (path[i] == RootDir ==> i == 0)
      && (path[i] == ParentDir ==> forall j :: 0 <= j < i ==> path[j] == ParentDir)
  }

  /** What normalising `path` has to give. */
  ghost predicate NormalForm(path: Path, r: Path) {
    Canonical(r) && SameMeaning(r, path)
  }

  // ---------- path buffers ----------

  predicate EndsWithParent(ret: Path) {
    ret != [] && ret[|ret| - 1] == ParentDir
  }

  predicate HasRoot(ret: Path) {
    ret != [] && ret[0] == RootDir
  }

  /** Pushing the root replaces the path. */
  function Push(ret: Path, c: Component): Path {
    if c == RootDir then [RootDir] else ret + [c]
  }

  /** Popping removes the last component, but never the root; the flag says whether it did. */
  function Pop(ret: Path): (Path, bool) {
    if ret == [] || ret[|ret| - 1] == RootDir then (ret, false)
    else (ret[..|ret| - 1], true)
  }

  method NormalizePath(path: Path) returns (ret: Path)
    ensures NormalForm(path, ret)
    ensures CurDir !in ret
    ensures forall i, j :: 0 <= i < j < |ret| && j == i + 1 ==>
        ret[j] != RootDir && (ret[j] == ParentDir ==> ret[i] == ParentDir)
    ensures forall start :: Walk(start, ret) == Walk(start, path)
  {
    ret := [];
    var n := 0;
    while n < |path|
      invariant 0 <= n <= |path|
      invariant NormalForm(path[..n], ret)
    {
      var component := path[n];
      ghost var before := ret;
      match component {
        case RootDir =>
          ret := Push(ret, RootDir);
        case CurDir =>
        case ParentDir =>
          if EndsWithParent(ret) {
            ret := Push(ret, ParentDir);
          } else {
            var (rest, popped) := Pop(ret);
            ret := rest;
            if !popped && !HasRoot(ret) {
              ret := Push(ret, ParentDir);
            }
          }
        case Normal(_) =>
          ret := Push(ret, component);
      }
      StepCorrect(before, component, ret);
      assert path[..n + 1][..n] == path[..n];
      assert forall start :: Walk(start, path[..n + 1]) == Enter(Walk(start, path[..n]), component);
      n := n + 1;
    }
    assert path[..n] == path;
  }

  /** The buffer after one more component. */
  ghost predicate IsStep(before: Path, c: Component, after: Path) {
    match c
    case RootDir => after == [RootDir]
    case CurDir => after == before
    case ParentDir => after == if before == [] || EndsWithParent(before) then before + [ParentDir] else Pop(before).0
    case Normal(_) => after == before + [c]
  }

  /** One step of normalisation keeps the form and enters one more component. */
  lemma StepCorrect(before: Path, c: Component, after: Path)
    requires Canonical(before) && IsStep(before, c, after)
    ensures Canonical(after)
    ensures forall start :: Walk(start, after) == Enter(Walk(start, before), c)
  {
  }

  // ---------- normal forms are unique ----------

  function Ups(k: nat): (r: Path)
    ensures |r| == k && forall i :: 0 <= i < k ==> r[i] == ParentDir
  {
    seq(k, _ => ParentDir)
  }

  lemma {:induction false} WalkUps(start: seq<string>, k: nat)
    ensures |Walk(start, Ups(k))| == if |start| <= k then 0 else |start| - k
  {
    if k > 0 {
      WalkUps(start, k - 1);
      assert Ups(k)[..k - 1] == Ups(k - 1);
    }
  }

  /** A canonical path that does not end in a name is the root or a row of `..`. */
  lemma NoNameAtEnd(p: Path)
    requires Canonical(p) && (p != [] ==> !p[|p| - 1].Normal?)
    ensures p == [RootDir] || p == Ups(|p|)
    ensures Walk([], p) == []
  {
  }

  function Deep(k: nat): (dir: seq<string>)
    ensures |dir| == k
  {
    seq(k, _ => "d")
  }

  /** Different canonical paths lead to different directories from somewhere. */
  lemma {:induction false} CanonicalUnique(p: Path, q: Path)
    requires Canonical(p) && Canonical(q) && SameMeaning(p, q)
    ensures p == q
    decreases |p|
  {
    var pName, qName := p != [] && p[|p| - 1].Normal?, q != [] && q[|q| - 1].Normal?;
    assert Walk([], p) == Walk([], q);
    if pName && qName {
      var p', q' := p[..|p| - 1], q[..|q| - 1];
      forall start
        ensures Walk(start, p') == Walk(start, q')
      {
        assert Walk(start, p) == Walk(start, q);
        assert Walk(start, p)[..|Walk(start, p)| - 1] == Walk(start, p');
        assert Walk(start, q)[..|Walk(start, q)| - 1] == Walk(start, q');
      }
      CanonicalUnique(p', q');
      assert p == p' + [p[|p| - 1]] && q == q' + [q[|q| - 1]];
      assert Walk([], p)[|Walk([], p)| - 1] == p[|p| - 1].name;
    } else if !pName && !qName {
      NoNameAtEnd(p);
      NoNameAtEnd(q);
      var far := Deep(|p| + |q| + 1);
      assert Walk(far, p) == Walk(far, q);
      WalkUps(far, |p|);
      WalkUps(far, |q|);
      assert [RootDir][..0] == [];
    } else if pName {
      NoNameAtEnd(q);
    } else {
      NoNameAtEnd(p);
    }
  }

  /** Normalising a normalised path changes nothing. */
  lemma NormalFormIdempotent(path: Path, once: Path, twice: Path)
    requires NormalForm(path, once) && NormalForm(once, twice)
    ensures twice == once
  {
    CanonicalUnique(twice, once);
  }

  /** Two paths normalise equally if and only if they denote the same directory from every start. */
  lemma NormalFormDecides(p: Path, q: Path, np: Path, nq: Path)
    requires NormalForm(p, np) && NormalForm(q, nq)
    ensures np == nq <==> SameMeaning(p, q)
  {
    if np == nq {
      forall start
        ensures Walk(start, p) == Walk(start, q)
      {
        assert Walk(start, np) == Walk(start, p) && Walk(start, nq) == Walk(start, q);
      }
    }
    if SameMeaning(p, q) {
      forall start
        ensures Walk(start, np) == Walk(start, nq)
      {
        assert Walk(start, np) == Walk(start, p) && Walk(start, nq) == Walk(start, q);
      }
      CanonicalUnique(np, nq);
    }
  }
}
