/**
 Kebab-case labels, package references `namespace:name` and package specs
 `namespace:name[@version]`: their grammar, their parsers and their printers.
 */
module PackageRefs {
  import opened Wrappers
  import opened Versions

  // ---------- labels ----------

  predicate IsLower(c: char) { 'a' <= c <= 'z' }

  predicate IsDigit(c: char) { '0' <= c <= '9' }

  /** Each character is lowercase or a digit, or a dash directly followed by a lowercase letter. */
  predicate KebabAt(s: string, i: nat)
    requires i < |s|
  {
    IsLower(s[i]) || IsDigit(s[i]) || (s[i] == '-' && i + 1 < |s| && IsLower(s[i + 1]))
  }

  predicate IsKebab(s: string) {
    forall i :: 0 <= i < |s| ==> KebabAt(s, i)
  }

  /** The grammar of labels, character by character. */
  predicate IsLabel(s: string) {
    s != "" && IsLower(s[0]) && IsKebab(s)
  }

  /** The grammar spelled out: a lowercase letter first, no dash last, and a lowercase letter after each dash. */
  lemma LabelByCharacters(s: string)
    ensures IsLabel(s) <==>
            && s != "" && 'a' <= s[0] <= 'z' && s[|s| - 1] != '-'
            && (forall i :: 0 <= i < |s| ==> 'a' <= s[i] <= 'z' || '0' <= s[i] <= '9' || s[i] == '-')
            && (forall i, j :: 0 <= i < j < |s| && j == i + 1 && s[i] == '-' ==> 'a' <= s[j] <= 'z')
  {
    if IsLabel(s) {
      forall i | 0 <= i < |s|
        ensures 'a' <= s[i] <= 'z' || '0' <= s[i] <= '9' || s[i] == '-'
      {
        assert KebabAt(s, i);
      }
      forall i, j | 0 <= i < j < |s| && j == i + 1 && s[i] == '-'
        ensures 'a' <= s[j] <= 'z'
      {
        assert KebabAt(s, i);
      }
      assert KebabAt(s, |s| - 1);
    } else if s != "" && IsLower(s[0]) {
      var i :| 0 <= i < |s| && !KebabAt(s, i);
      assert i < |s| - 1 ==> !IsLower(s[i + 1]) || s[i] != '-';
    }
  }

  type Label = s: string | IsLabel(s) witness "a"

  datatype InvalidLabel = Empty | EmptyWord | InvalidChar | InvalidWordFirstChar

  /** The words between separators; always at least one. */
  function Split(s: string, sep: char): (words: seq<string>)
    ensures |words| >= 1
  {
    if s == "" then [""]
    else if s[0] == sep then [""] + Split(s[1..], sep)
    else
      var rest := Split(s[1..], sep);
      [[s[0]] + rest[0]] + rest[1..]
  }

  function Join(words: seq<string>, sep: char): string
    requires words != []
  {
    if |words| == 1 then words[0] else words[0] + [sep] + Join(words[1..], sep)
  }

  /** The words have no separator in them, and joined by it they are the text again. */
  lemma {:induction false} SplitJoins(s: string, sep: char)
    ensures Join(Split(s, sep), sep) == s
    ensures forall k :: 0 <= k < |Split(s, sep)| ==> sep !in Split(s, sep)[k]
  {
    if s != "" {
      var rest := Split(s[1..], sep);
      SplitJoins(s[1..], sep);
      assert s == [s[0]] + s[1..];
      if s[0] == sep {
        assert Split(s, sep)[1..] == rest;
      } else {
        var words := Split(s, sep);
        assert words[1..] == rest[1..] && words[0] == [s[0]] + rest[0];
        assert Join(words, sep) == [s[0]] + Join(rest, sep);
      }
    }
  }

  predicate WordTail(word: string) {
    forall i :: 0 <= i < |word| ==> IsLower(word[i]) || IsDigit(word[i])
  }

  /** What the parser finds wrong with one word. */
  function WordError(word: string): Option<InvalidLabel> {
    if word == "" then Some(EmptyWord)
    else if !IsLower(word[0]) then Some(InvalidWordFirstChar)
    else if !WordTail(word[1..]) then Some(InvalidChar)
    else None
  }

  lemma WordErrorByCharacters(word: string)
    ensures WordError(word) == Some(EmptyWord) <==> word == ""
    ensures WordError(word) == Some(InvalidWordFirstChar) <==> word != "" && !('a' <= word[0] <= 'z')
    ensures WordError(word) == Some(InvalidChar) <==>
            && word != "" && 'a' <= word[0] <= 'z'
            && exists i :: 0 < i < |word| && !('a' <= word[i] <= 'z') && !('0' <= word[i] <= '9')
    ensures WordError(word) != Some(Empty)
  {
    if word != "" {
      forall i | 0 < i < |word|
        ensures word[1..][i - 1] == word[i]
      {
      }
    }
  }

  /** The error is the one of the first bad word. */
  ghost predicate FailsWith(text: string, e: InvalidLabel) {
    if text == "" then e == Empty
    else exists k :: 0 <= k < |Split(text, '-')| && WordError(Split(text, '-')[k]) == Some(e)
                     && forall j :: 0 <= j < k ==> WordError(Split(text, '-')[j]) == None
  }

  /** The label parser: word by word, stopping at the first bad one. */
  method ParseLabel(text: string) returns (r: Result<Label, InvalidLabel>)
    ensures r.Ok? <==> IsLabel(text)
    ensures r.Ok? ==> r.value == text
    ensures r == Err(Empty) <==> text == ""
    ensures r.Err? ==> FailsWith(text, r.error)
  {
    if text == "" {
      return Err(Empty);
    }
    SplitMeansLabel(text);
    var words := Split(text, '-');
    var n := 0;
    while n < |words|
      invariant 0 <= n <= |words|
      invariant forall j :: 0 <= j < n ==> WordError(words[j]) == None
    {
      var word := words[n];
      if word == "" {
        return Err(EmptyWord);
      }
      if !IsLower(word[0]) {
        return Err(InvalidWordFirstChar);
      }
      var i := 1;
      while i < |word|
        invariant 1 <= i <= |word|
        invariant forall j :: 1 <= j < i ==> IsLower(word[j]) || IsDigit(word[j])
      {
        if !(IsLower(word[i]) || IsDigit(word[i])) {
          assert !WordTail(word[1..]) by { assert word[1..][i - 1] == word[i]; }
          return Err(InvalidChar);
        }
        i := i + 1;
      }
      n := n + 1;
    }
    return Ok(text);
  }

  predicate WordsFine(words: seq<string>) {
    forall k :: 0 <= k < |words| ==> WordError(words[k]) == None
  }

  /** Reading on inside a word: the rest of that word, then whole words. */
  lemma {:induction false} SplitMeansKebab(s: string)
    ensures IsKebab(s) <==> WordTail(Split(s, '-')[0]) && WordsFine(Split(s, '-')[1..])
  {
    if s != "" {
      var t := s[1..];
      SplitMeansKebab(t);
      KebabTail(s);
      var words, rest := Split(s, '-'), Split(t, '-');
      if s[0] == '-' {
        assert words[1..] == rest;
        if t != "" {
          FirstWord(t);
        }
        assert rest == [rest[0]] + rest[1..];
        WordTailSplit(rest[0]);
      } else {
        assert words[1..] == rest[1..];
        WordTailSplit(words[0]);
        assert words[0][1..] == rest[0];
      }
    }
  }

  lemma KebabTail(s: string)
    requires s != ""
    ensures IsKebab(s) <==> KebabAt(s, 0) && IsKebab(s[1..])
  {
    forall i | 0 <= i < |s| - 1
      ensures KebabAt(s[1..], i) == KebabAt(s, i + 1)
    {
    }
    if KebabAt(s, 0) && IsKebab(s[1..]) {
      forall i | 0 <= i < |s|
        ensures KebabAt(s, i)
      {
        if i > 0 {
          assert KebabAt(s[1..], i - 1);
        }
      }
    }
  }

  lemma FirstWord(t: string)
    requires t != ""
    ensures t[0] == '-' ==> Split(t, '-')[0] == ""
    ensures t[0] != '-' ==> Split(t, '-')[0] != "" && Split(t, '-')[0][0] == t[0]
  {
  }

  lemma WordTailSplit(word: string)
    ensures word != "" ==> (WordTail(word) <==> (IsLower(word[0]) || IsDigit(word[0])) && WordTail(word[1..]))
  {
  }

  /** The parser's words are all fine exactly when the characters follow the grammar. */
  lemma SplitMeansLabel(s: string)
    requires s != ""
    ensures WordsFine(Split(s, '-')) <==> IsLabel(s)
  {
    SplitMeansKebab(s);
    FirstWord(s);
    var words := Split(s, '-');
    assert words == [words[0]] + words[1..];
    WordTailSplit(words[0]);
  }

  // ---------- package references ----------

  datatype PackageRef = PackageRef(namespace: Label, name: Label)
  {
    function Print(): string { namespace + ":" + name }
  }

  datatype RefError = MissingColon | BadLabel(reason: InvalidLabel)

  /** Position of the first `c`, or the length of `s` when there is none. */
  function Find(s: string, c: char): (i: nat)
    ensures i <= |s|
    ensures i < |s| ==> s[i] == c
    ensures forall j :: 0 <= j < i ==> s[j] != c
  {
    if s == "" || s[0] == c then 0 else 1 + Find(s[1..], c)
  }

  /** The part before the first separator is found again, whatever comes after. */
  lemma FindInConcat(a: string, c: char, b: string)
    requires c !in a
    ensures Find(a + [c] + b, c) == |a|
  {
    assert (a + [c] + b)[|a|] == c;
    assert forall j :: 0 <= j < |a| ==> (a + [c] + b)[j] == a[j];
  }

  lemma LabelHasNo(l: Label, c: char)
    requires !IsLower(c) && !IsDigit(c) && c != '-'
    ensures c !in l
  {
    forall i | 0 <= i < |l|
      ensures l[i] != c
    {
      assert KebabAt(l, i);
    }
  }

  /** Parsing inverts printing, and accepts nothing but printed references. */
  method ParseRef(text: string) returns (r: Result<PackageRef, RefError>)
    ensures r.Ok? ==> r.value.Print() == text && text == r.value.namespace + ":" + r.value.name
    ensures forall p: PackageRef :: p.Print() == text ==> r == Ok(p)
    ensures forall p: PackageRef :: p.namespace + ":" + p.name == text ==> r == Ok(p)
    ensures r == Err(MissingColon) <==> ':' !in text
    ensures r.Err? && r.error.BadLabel? ==>
        var colon := Find(text, ':');
        && colon < |text|
        && if !IsLabel(text[..colon]) then FailsWith(text[..colon], r.error.reason)
           else FailsWith(text[colon + 1..], r.error.reason)
  {
    forall p: PackageRef | p.Print() == text
      ensures Find(text, ':') == |p.namespace|
      ensures |p.namespace| < |text| && text[..|p.namespace|] == p.namespace && text[|p.namespace| + 1..] == p.name
    {
      LabelHasNo(p.namespace, ':');
      FindInConcat(p.namespace, ':', p.name);
      assert text == p.namespace + [':'] + p.name;
    }
    var value := text;
    var colon := Find(value, ':');
    if colon == |value| {
      return Err(MissingColon);
    }
    var name := value[colon + 1..];
    value := value[..colon];
    var ns := ParseLabel(value);
    if ns.Err? {
      return Err(BadLabel(ns.error));
    }
    var nm := ParseLabel(name);
    if nm.Err? {
      return Err(BadLabel(nm.error));
    }
    assert text == value + [':'] + name;
    return Ok(PackageRef(ns.value, nm.value));
  }

  lemma PrintInjective(p: PackageRef, q: PackageRef)
    requires p.Print() == q.Print()
    ensures p == q
  {
    LabelHasNo(p.namespace, ':');
    LabelHasNo(q.namespace, ':');
    FindInConcat(p.namespace, ':', p.name);
    FindInConcat(q.namespace, ':', q.name);
    var s := p.Print();
    assert s == p.namespace + [':'] + p.name && s == q.namespace + [':'] + q.name;
    assert s[..|p.namespace|] == p.namespace && s[..|q.namespace|] == q.namespace;
    assert s[|p.namespace| + 1..] == p.name && s[|q.namespace| + 1..] == q.name;
  }

  // ---------- package specs ----------

  datatype PackageSpec = PackageSpec(package: PackageRef, version: Option<Version>)
  {
    function Print(printVersion: Version -> string): string {
      match version
      case None => package.Print()
      case Some(v) => package.Print() + "@" + printVersion(v)
    }
  }

  datatype SpecError = BadRef(ref: RefError) | BadVersion

  /** Whatever a spec prints as is read back as that spec, given a version parser that inverts the version printer. */
  method ParseSpec(text: string, parseVersion: string -> Option<Version>, ghost printVersion: Version -> string)
    returns (r: Result<PackageSpec, SpecError>)
    requires forall v :: parseVersion(printVersion(v)) == Some(v)
    ensures forall s: PackageSpec :: s.Print(printVersion) == text ==> r == Ok(s)
    ensures r.Ok? ==> text == r.value.package.Print() + text[Find(text, '@')..]
    ensures forall p: PackageRef :: p.namespace + ":" + p.name == text ==> r == Ok(PackageSpec(p, None))
    ensures forall p: PackageRef, v: Version ::
        p.namespace + ":" + p.name + "@" + printVersion(v) == text ==> r == Ok(PackageSpec(p, Some(v)))
    ensures r.Ok? ==> (r.value.version.None? <==> '@' !in text)
    ensures r == Err(BadVersion) ==> '@' in text && parseVersion(text[Find(text, '@') + 1..]).None?
    ensures r.Err? && r.error.BadRef? ==> forall p: PackageRef :: p.namespace + ":" + p.name != text[..Find(text, '@')]
    ensures r.Ok? && '@' in text ==> r.value.version == parseVersion(text[Find(text, '@') + 1..])
  {
    var at := Find(text, '@');
    forall s: PackageSpec | s.Print(printVersion) == text
      ensures text[..at] == s.package.Print()
      ensures s.version.None? <==> at == |text|
      ensures s.version.Some? ==> text[at + 1..] == printVersion(s.version.value)
    {
      RefHasNoAt(s.package);
      if s.version.Some? {
        FindInConcat(s.package.Print(), '@', printVersion(s.version.value));
        assert text == s.package.Print() + ['@'] + printVersion(s.version.value);
      }
    }
    var package := ParseRef(text[..at]);
    if package.Err? {
      return Err(BadRef(package.error));
    }
    if at == |text| {
      return Ok(PackageSpec(package.value, None));
    }
    var version := parseVersion(text[at + 1..]);
    if version.None? {
      return Err(BadVersion);
    }
    return Ok(PackageSpec(package.value, version));
  }

  lemma RefHasNoAt(p: PackageRef)
    ensures '@' !in p.Print()
  {
    LabelHasNo(p.namespace, '@');
    LabelHasNo(p.name, '@');
  }
}
