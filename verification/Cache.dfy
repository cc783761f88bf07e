/**
 The file cache and the caching client: file names that never collide, files that read back, and a
 cache that answers as the registry does exactly as long as failed writes left the right bytes.
 */
module Cache {
  import opened Wrappers
  import opened Versions
  import opened PackageRefs
  import opened Digests
  import opened ReleaseInfo

  // ---------- file names ----------

  /** A version printer: injective, and its text starts with a digit, as every version does. */
  ghost predicate PrintsVersions(printVersion: Version -> string) {
    && (forall v :: printVersion(v) != "" && IsDigit(printVersion(v)[0]))
    && (forall v, w :: printVersion(v) == printVersion(w) ==> v == w)
  }

  const SUFFIX := ".json"

  /** The file of a release. */
  function ReleaseFile(package: PackageRef, version: string): string {
    package.Print() + "-" + version + SUFFIX
  }

  /** In a printed package, a dash is never followed by a digit, and it never ends in a dash. */
  lemma PrintedDash(p: PackageRef, i: nat)
    requires i < |p.Print()| && p.Print()[i] == '-'
    ensures i + 1 < |p.Print()| && IsLower(p.Print()[i + 1])
  {
    var n := |p.namespace|;
    if i < n {
      assert KebabAt(p.namespace, i);
    } else {
      assert KebabAt(p.name, i - n - 1);
    }
  }

  /** The package part of a release file's name cannot be longer than another's. */
  lemma PackagePartBounded(p: PackageRef, q: PackageRef, v: string, w: string)
    requires v != "" && IsDigit(v[0]) && w != ""
    requires ReleaseFile(p, v) == ReleaseFile(q, w)
    ensures |q.Print()| <= |p.Print()|
  {
    var s := ReleaseFile(p, v);
    var n := |p.Print()|;
    assert s[n] == '-' && s[n + 1] == v[0];
    if n < |q.Print()| {
      assert q.Print()[n] == s[n];
      PrintedDash(q, n);
    }
  }

  /** The file of a release determines the package and the version. */
  lemma ReleaseFileInjective(printVersion: Version -> string, p: PackageRef, v: Version, q: PackageRef, w: Version)
    requires PrintsVersions(printVersion)
    requires ReleaseFile(p, printVersion(v)) == ReleaseFile(q, printVersion(w))
    ensures p == q && v == w
  {
    var a, b := printVersion(v), printVersion(w);
    PackagePartBounded(p, q, a, b);
    PackagePartBounded(q, p, b, a);
    var s := ReleaseFile(p, a);
    var n := |p.Print()|;
    assert s[..n] == p.Print() && s[..n] == q.Print();
    PrintInjective(p, q);
    assert s[n + 1..|s| - |SUFFIX|] == a && s[n + 1..|s| - |SUFFIX|] == b;
  }

  /** The file of a release is never the file of some content. */
  lemma ReleaseNotContent(p: PackageRef, version: string, digest: ContentDigest)
    requires digest.Valid()
    ensures ReleaseFile(p, version) != digest.Print()
  {
    var s := ReleaseFile(p, version);
    assert s[|s| - 1] == 'n';
    assert digest.Print()[|digest.Print()| - 1] == digest.hex[63];
    assert IsLowerHex(digest.hex[63]);
  }

  lemma ContentFileInjective(d: ContentDigest, e: ContentDigest)
    requires d.Print() == e.Print()
    ensures d == e
  {
    assert d.Print()[|PREFIX|..] == d.hex && e.Print()[|PREFIX|..] == e.hex;
  }

  // ---------- the file cache ----------

  /** How releases are written to files; the text form itself is not modelled. */
  datatype Codec = Codec(encode: Release -> Bytes, decode: Bytes -> Option<Release>)

  type Files = map<string, Bytes>

  /** The content that is filed under a digest, if there is any. */
  function ReadData(files: Files, d: ContentDigest): Option<Bytes> {
    if d.Print() in files then Some(files[d.Print()]) else None
  }

  /** The release that is filed, if there is one; an error if its file is not a release. */
  function ReadRelease(codec: Codec, printVersion: Version -> string, files: Files, p: PackageRef,
      v: Version): Result<Option<Release>, ()> {
    var path := ReleaseFile(p, printVersion(v));
    if path !in files then Ok(None)
    else if codec.decode(files[path]).Some? then Ok(codec.decode(files[path]))
    else Err(())
  }

  function WriteData(files: Files, d: ContentDigest, bytes: Bytes): Files {
    files[d.Print() := bytes]
  }

  function WriteRelease(codec: Codec, printVersion: Version -> string, files: Files, p: PackageRef,
      release: Release): Files {
    files[ReleaseFile(p, printVersion(release.version)) := codec.encode(release)]
  }

  /** What was filed under a digest is read back; every other content and all releases read as before. */
  lemma WriteDataRead(codec: Codec, printVersion: Version -> string, files: Files, d: ContentDigest, bytes: Bytes)
    requires d.Valid()
    ensures var files' := WriteData(files, d, bytes);
            && ReadData(files', d) == Some(bytes)
            && (forall e: ContentDigest :: e != d ==> ReadData(files', e) == ReadData(files, e))
            && (forall p, v ::
                  ReadRelease(codec, printVersion, files', p, v) == ReadRelease(codec, printVersion, files, p, v))
  {
    var files' := WriteData(files, d, bytes);
    forall e: ContentDigest | e != d
      ensures ReadData(files', e) == ReadData(files, e)
    {
      if e.Print() == d.Print() {
        ContentFileInjective(d, e);
      }
    }
    forall p, v
      ensures ReadRelease(codec, printVersion, files', p, v) == ReadRelease(codec, printVersion, files, p, v)
    {
      ReleaseNotContent(p, printVersion(v), d);
    }
  }

  /** A release that was filed is read back; every other release and all content read as before. */
  lemma WriteReleaseRead(codec: Codec, printVersion: Version -> string, files: Files, p: PackageRef, release: Release)
    requires PrintsVersions(printVersion) && codec.decode(codec.encode(release)) == Some(release)
    ensures var files' := WriteRelease(codec, printVersion, files, p, release);
            && ReadRelease(codec, printVersion, files', p, release.version) == Ok(Some(release))
            && (forall q, v :: (q, v) != (p, release.version) ==>
                  ReadRelease(codec, printVersion, files', q, v) == ReadRelease(codec, printVersion, files, q, v))
            && (forall d: ContentDigest :: d.Valid() ==> ReadData(files', d) == ReadData(files, d))
  {
    var files' := WriteRelease(codec, printVersion, files, p, release);
    forall q, v | (q, v) != (p, release.version)
      ensures ReadRelease(codec, printVersion, files', q, v) == ReadRelease(codec, printVersion, files, q, v)
    {
      if ReleaseFile(q, printVersion(v)) == ReleaseFile(p, printVersion(release.version)) {
        ReleaseFileInjective(printVersion, q, v, p, release.version);
      }
    }
    forall d: ContentDigest | d.Valid()
      ensures ReadData(files', d) == ReadData(files, d)
    {
      ReleaseNotContent(p, printVersion(release.version), d);
    }
  }

  function Min(a: nat, b: nat): nat { if a < b then a else b }

  /** What copying a stream leaves: all of it, or the bytes that were written before its first error. */
  function Kept(data: seq<Item>, written: nat): Bytes {
    var received := Received(data);
    if NoFailure(data) then received else received[..Min(written, |received|)]
  }

  /** Without an error all the content, and otherwise so many bytes of what came before the first error. */
  lemma KeptInFull(data: seq<Item>, written: nat)
    ensures Fail !in data ==> Kept(data, written) == Content(data)
    ensures forall i :: 0 <= i < |data| && data[i] == Fail && Fail !in data[..i] ==>
        var arrived := Content(data[..i]);
        Kept(data, written) == if written < |arrived| then arrived[..written] else arrived
  {
    assert data[..|data|] == data;
    forall i | 0 <= i < |data| && data[i] == Fail && Fail !in data[..i]
      ensures FirstFailure(data) == i
    {
      FirstFailureIs(data, i);
    }
  }

  /** A directory of files. */
  class FileCache {
    const codec: Codec
    const printVersion: Version -> string
    var files: Files

    constructor (codec: Codec, printVersion: Version -> string)
      ensures this.codec == codec && this.printVersion == printVersion && files == map[]
    {
      this.codec, this.printVersion, files := codec, printVersion, map[];
    }

    /**
     Copies a stream into the content file, through a buffer and up to the first error; the file stays.
     When there is an error, `written` bytes have got to the file, and what is in the buffer is lost.
     */
    method PutData(digest: ContentDigest, data: seq<Item>, written: nat) returns (ok: bool)
      modifies this
      ensures files == WriteData(old(files), digest, Kept(data, written))
      ensures ok <==> NoFailure(data)
    {
      var path := digest.Print();
      files := files[path := []];
      var buffer: Bytes := [];
      var i := 0;
      while i < |data| && data[i].Chunk?
        invariant 0 <= i <= |data| && NoFailure(data[..i])
        invariant path in files && files == old(files)[path := files[path]]
        invariant files[path] + buffer == Content(data[..i])
        invariant |files[path]| == Min(written, |Content(data[..i])|)
      {
        assert data[..i + 1] == data[..i] + [data[i]];
        buffer := buffer + data[i].bytes;
        var n := Min(written - |files[path]|, |buffer|);
        files := files[path := files[path] + buffer[..n]];
        buffer := buffer[n..];
        i := i + 1;
      }
      FirstFailureIs(data, i);
      ok := i == |data|;
      if ok {
        files := files[path := files[path] + buffer];
      }
    }

    method GetData(digest: ContentDigest) returns (r: Option<Bytes>)
      ensures r == ReadData(files, digest)
    {
      r := if digest.Print() in files then Some(files[digest.Print()]) else None;
    }

    method PutRelease(package: PackageRef, release: Release)
      modifies this
      ensures files == WriteRelease(codec, printVersion, old(files), package, release)
    {
      files := files[ReleaseFile(package, printVersion(release.version)) := codec.encode(release)];
    }

    /** Nothing if there is no file; an error if its content is not a release. */
    method GetRelease(package: PackageRef, version: Version) returns (r: Result<Option<Release>, ()>)
      ensures r == ReadRelease(codec, printVersion, files, package, version)
    {
      var path := ReleaseFile(package, printVersion(version));
      if path !in files {
        return Ok(None);
      }
      var release := codec.decode(files[path]);
      if release.None? {
        return Err(());
      }
      return Ok(release);
    }
  }

  // ---------- the registry behind the cache ----------

  /** A registry whose releases never change. `content` is the raw stream of a release. */
  datatype Upstream = Upstream(release: (PackageRef, Version) -> Option<Release>,
                               content: (PackageRef, Release) -> Option<seq<Item>>)

  /** The fixed surroundings of a caching client; it may be offline. */
  datatype Setup = Setup(upstream: Upstream, online: bool, hash: Hash, codec: Codec, printVersion: Version -> string)
  {
    /** Texts round-trip, hashes are digests, and the registry answers with the version asked for. */
    ghost predicate Valid() {
      && PrintsVersions(printVersion)
      && (forall r :: codec.decode(codec.encode(r)) == Some(r))
      && (forall bytes :: hash(bytes).Valid())
      && (forall p, v :: upstream.release(p, v).Some? ==> upstream.release(p, v).value.version == v)
    }

    /** What the client without a cache gives for a request for content, if all of it arrives. */
    function DirectContent(package: PackageRef, release: Release): Option<Bytes> {
      match upstream.content(package, release)
      case None => None
      case Some(raw) =>
        var stream := Validated(hash, release.digest, raw);
        if NoFailure(stream) then Some(Content(raw)) else None
    }
  }

  /** The client without a cache gives all of the content, if there is no error in it and it has the digest. */
  lemma DirectInFull(setup: Setup, p: PackageRef, release: Release)
    ensures var raw, direct := setup.upstream.content(p, release), setup.DirectContent(p, release);
            && (direct.Some? <==> raw.Some? && Fail !in raw.value && setup.hash(Content(raw.value)) == release.digest)
            && (direct.Some? ==> direct.value == Content(raw.value))
  {
    if setup.upstream.content(p, release).Some? {
      ValidatedContent(setup.hash, release.digest, setup.upstream.content(p, release).value);
    }
  }

  // ---------- faithfulness ----------

  /** If a release is filed, it is what the registry says. */
  predicate ReleaseFaithful(setup: Setup, files: Files, p: PackageRef, v: Version) {
    var filed := ReadRelease(setup.codec, setup.printVersion, files, p, v);
    filed == Ok(None) || (filed == Ok(setup.upstream.release(p, v)) && setup.upstream.release(p, v).Some?)
  }

  ghost predicate ReleasesFaithful(setup: Setup, files: Files) {
    forall p, v :: ReleaseFaithful(setup, files, p, v)
  }

  /** If content is filed, it has the digest it is filed under. */
  predicate ContentFaithful(setup: Setup, files: Files, d: ContentDigest) {
    ReadData(files, d).Some? ==> setup.hash(ReadData(files, d).value) == d
  }

  ghost predicate Faithful(setup: Setup, files: Files) {
    ReleasesFaithful(setup, files) && forall d: ContentDigest :: d.Valid() ==> ContentFaithful(setup, files, d)
  }

  /** Writing content keeps the cache faithful exactly when the bytes have the digest they are filed under. */
  lemma PutContentFaithful(setup: Setup, files: Files, d: ContentDigest, bytes: Bytes)
    requires Faithful(setup, files) && d.Valid()
    ensures Faithful(setup, WriteData(files, d, bytes)) <==> setup.hash(bytes) == d
  {
    var files' := WriteData(files, d, bytes);
    WriteDataRead(setup.codec, setup.printVersion, files, d, bytes);
    assert setup.hash(bytes) == d <==> ContentFaithful(setup, files', d);
    forall p, v
      ensures ReleaseFaithful(setup, files', p, v)
    {
      assert ReleaseFaithful(setup, files, p, v);
    }
    forall e: ContentDigest | e.Valid() && e != d
      ensures ContentFaithful(setup, files', e)
    {
      assert ContentFaithful(setup, files, e);
    }
  }

  /** Filing what the registry says keeps releases faithful, and content as it was. */
  lemma PutReleaseFaithful(setup: Setup, files: Files, p: PackageRef, v: Version)
    requires setup.Valid() && ReleasesFaithful(setup, files) && setup.upstream.release(p, v).Some?
    ensures var files' := WriteRelease(setup.codec, setup.printVersion, files, p, setup.upstream.release(p, v).value);
            && ReleasesFaithful(setup, files')
            && (forall d: ContentDigest :: d.Valid() ==> ReadData(files', d) == ReadData(files, d))
  {
    var release := setup.upstream.release(p, v).value;
    var files' := WriteRelease(setup.codec, setup.printVersion, files, p, release);
    WriteReleaseRead(setup.codec, setup.printVersion, files, p, release);
    forall q, w
      ensures ReleaseFaithful(setup, files', q, w)
    {
      assert ReleaseFaithful(setup, files, q, w);
    }
  }

  // ---------- the caching client ----------

  /** What a request for a release does to the files, and its answer. */
  function ServeRelease(setup: Setup, files: Files, p: PackageRef, v: Version): (Files, Result<Release, ()>) {
    match ReadRelease(setup.codec, setup.printVersion, files, p, v)
    case Err(_) => (files, Err(()))
    case Ok(Some(filed)) => (files, Ok(filed))
    case Ok(None) =>
      if !setup.online || setup.upstream.release(p, v).None? then (files, Err(()))
      else
        var release := setup.upstream.release(p, v).value;
        (WriteRelease(setup.codec, setup.printVersion, files, p, release), Ok(release))
  }

  /**
   How far one fetch gets: how many items arrive before the connection breaks, if it does, and how
   many bytes are written to the cache if there is an error.
   */
  datatype Delivery = Delivery(arrived: nat, written: nat)

  function Arriving(raw: seq<Item>, n: nat): seq<Item> {
    if |raw| <= n then raw else raw[..n] + [Fail]
  }

  /** All of the content arrives. */
  predicate Complete(setup: Setup, p: PackageRef, release: Release, delivery: Delivery) {
    var raw := setup.upstream.content(p, release);
    raw.Some? && |raw.value| <= delivery.arrived
  }

  /** The validated stream that a request for content reads, if the client is online and there is content. */
  function Fetched(setup: Setup, p: PackageRef, release: Release, delivery: Delivery): Option<seq<Item>> {
    if !setup.online || setup.upstream.content(p, release).None? then None
    else
      var arriving := Arriving(setup.upstream.content(p, release).value, delivery.arrived);
      Some(Validated(setup.hash, release.digest, arriving))
  }

  /** What a request for content does to the files, and its answer. */
  function ServeContent(setup: Setup, files: Files, p: PackageRef, release: Release,
      delivery: Delivery): (Files, Result<Bytes, ()>) {
    if ReadData(files, release.digest).Some? then (files, Ok(ReadData(files, release.digest).value))
    else
      match Fetched(setup, p, release, delivery)
      case None => (files, Err(()))
      case Some(stream) =>
        (WriteData(files, release.digest, Kept(stream, delivery.written)),
         if NoFailure(stream) then Ok(Received(stream)) else Err(()))
  }

  /** Content of what comes first is a prefix. */
  lemma ContentPrefix(items: seq<Item>, i: nat)
    requires i <= |items|
    ensures Content(items[..i]) <= Content(items)
  {
    ContentConcat(items[..i], items[i..]);
    assert items == items[..i] + items[i..];
  }

  /** A fetch goes through if everything arrives without an error and has the digest; it never keeps more. */
  lemma FetchedInFull(setup: Setup, p: PackageRef, release: Release, delivery: Delivery)
    requires Fetched(setup, p, release, delivery).Some?
    ensures var raw := setup.upstream.content(p, release).value;
            var stream := Fetched(setup, p, release, delivery).value;
            && (NoFailure(stream) <==>
                |raw| <= delivery.arrived && Fail !in raw && setup.hash(Content(raw)) == release.digest)
            && (NoFailure(stream) ==> Received(stream) == Content(raw))
            && Kept(stream, delivery.written) <= Content(raw)
  {
    var raw := setup.upstream.content(p, release).value;
    var arriving := Arriving(raw, delivery.arrived);
    var stream := Validated(setup.hash, release.digest, arriving);
    ValidatedContent(setup.hash, release.digest, arriving);
    if delivery.arrived < |raw| {
      assert Fail in arriving;
    }
    var i := FirstFailure(stream);
    assert stream[..i] == raw[..i];
    ContentPrefix(raw, i);
  }

  class CachingClient {
    const setup: Setup
    const cache: FileCache

    constructor (setup: Setup, cache: FileCache)
      requires cache.codec == setup.codec && cache.printVersion == setup.printVersion
      ensures this.setup == setup && this.cache == cache && Wired()
    {
      this.setup, this.cache := setup, cache;
    }

    ghost predicate Wired() {
      cache.codec == setup.codec && cache.printVersion == setup.printVersion
    }

    method GetRelease(package: PackageRef, version: Version) returns (r: Result<Release, ()>)
      requires Wired()
      modifies cache
      ensures (cache.files, r) == ServeRelease(setup, old(cache.files), package, version)
      ensures var path := package.Print() + "-" + setup.printVersion(version) + ".json";
              if path in old(cache.files) then
                && cache.files == old(cache.files)
                && r == match setup.codec.decode(old(cache.files)[path]) { case Some(d) => Ok(d) case None => Err(()) }
              else if setup.online && setup.upstream.release(package, version).Some? then
                var release := setup.upstream.release(package, version).value;
                var filed := package.Print() + "-" + setup.printVersion(release.version) + ".json";
                r == Ok(release) && cache.files == old(cache.files)[filed := setup.codec.encode(release)]
              else
                r == Err(()) && cache.files == old(cache.files)
    {
      var cached := cache.GetRelease(package, version);
      if cached.Err? {
        return Err(());
      }
      if cached.value.Some? {
        return Ok(cached.value.value);
      }
      if !setup.online {
        return Err(());
      }
      var release := setup.upstream.release(package, version);
      if release.None? {
        return Err(());
      }
      cache.PutRelease(package, release.value);
      return Ok(release.value);
    }

    method GetContent(package: PackageRef, release: Release, delivery: Delivery) returns (r: Result<Bytes, ()>)
      requires Wired()
      modifies cache
      ensures (cache.files, r) == ServeContent(setup, old(cache.files), package, release, delivery)
      ensures var path := "sha256:" + release.digest.hex;
              if path in old(cache.files) then
                r == Ok(old(cache.files)[path]) && cache.files == old(cache.files)
              else if !setup.online || setup.upstream.content(package, release).None? then
                r == Err(()) && cache.files == old(cache.files)
              else
                var raw := setup.upstream.content(package, release).value;
                && path in cache.files && cache.files == old(cache.files)[path := cache.files[path]]
                && (r.Ok? <==> |raw| <= delivery.arrived && Fail !in raw && setup.hash(Content(raw)) == release.digest)
                && (r.Ok? ==> r.value == cache.files[path] == Content(raw))
                && cache.files[path] <= Content(raw)
    {
      var cached := cache.GetData(release.digest);
      if cached.Some? {
        return Ok(cached.value);
      }
      if !setup.online {
        return Err(());
      }
      var raw := setup.upstream.content(package, release);
      if raw.None? {
        return Err(());
      }
      FetchedInFull(setup, package, release, delivery);
      var stream := ValidatingStream(setup.hash, release.digest, Arriving(raw.value, delivery.arrived));
      var ok := cache.PutData(release.digest, stream, delivery.written);
      if !ok {
        return Err(());
      }
      cached := cache.GetData(release.digest);
      if cached.None? {
        return Err(());
      }
      return Ok(cached.value);
    }
  }

  // ---------- one request ----------

  /** Where releases are faithful, they are answered as the registry does, and stay faithful. */
  lemma ReleaseAnswers(setup: Setup, files: Files, p: PackageRef, v: Version)
    requires setup.Valid() && ReleasesFaithful(setup, files)
    ensures var (files', r) := ServeRelease(setup, files, p, v);
            && ReleasesFaithful(setup, files')
            && (forall d: ContentDigest :: d.Valid() ==> ReadData(files', d) == ReadData(files, d))
            && (r.Ok? ==> setup.upstream.release(p, v) == Some(r.value))
            && (setup.online && setup.upstream.release(p, v).Some? ==> r.Ok?)
  {
    assert ReleaseFaithful(setup, files, p, v);
    if setup.upstream.release(p, v).Some? {
      PutReleaseFaithful(setup, files, p, v);
    }
  }

  /** The fetch that a request for content makes, if it makes one, meets an error while writing the cache. */
  predicate PutFails(setup: Setup, files: Files, p: PackageRef, release: Release, delivery: Delivery) {
    var fetched := Fetched(setup, p, release, delivery);
    ReadData(files, release.digest).None? && fetched.Some? && !NoFailure(fetched.value)
  }

  /** A fetch without an error brought what the client without a cache gives, and it has the digest. */
  lemma FetchedWhole(setup: Setup, p: PackageRef, release: Release, delivery: Delivery)
    requires Fetched(setup, p, release, delivery).Some?
    ensures var stream := Fetched(setup, p, release, delivery).value;
            && (NoFailure(stream) ==> setup.DirectContent(p, release) == Some(Received(stream)))
            && (NoFailure(stream) ==> setup.hash(Received(stream)) == release.digest)
            && (NoFailure(stream) <==> Complete(setup, p, release, delivery) && setup.DirectContent(p, release).Some?)
  {
    var raw := setup.upstream.content(p, release).value;
    ValidatedContent(setup.hash, release.digest, Arriving(raw, delivery.arrived));
    if delivery.arrived < |raw| {
      assert Fail in Arriving(raw, delivery.arrived);
    }
  }

  /**
   From a faithful cache, content is answered with the digest asked for; what is fetched now is what
   the client without a cache gives; and the cache stays faithful exactly when no write into it fails, or
   the one that fails has left bytes with the digest asked for.
   */
  lemma ContentAnswers(setup: Setup, files: Files, p: PackageRef, release: Release, delivery: Delivery)
    requires Faithful(setup, files) && release.digest.Valid()
    ensures var (files', r) := ServeContent(setup, files, p, release, delivery);
            && (r.Ok? ==> setup.hash(r.value) == release.digest)
            && (r.Ok? && ReadData(files, release.digest).None? ==> setup.DirectContent(p, release) == Some(r.value))
            && (setup.online && Complete(setup, p, release, delivery) && setup.DirectContent(p, release).Some? ==>
                  r.Ok?)
            && (Faithful(setup, files') <==>
                (PutFails(setup, files, p, release, delivery) ==>
                   var left := Kept(Fetched(setup, p, release, delivery).value, delivery.written);
                   setup.hash(left) == release.digest))
  {
    assert ContentFaithful(setup, files, release.digest);
    if ReadData(files, release.digest).None? && Fetched(setup, p, release, delivery).Some? {
      FetchedWhole(setup, p, release, delivery);
      PutContentFaithful(setup, files, release.digest,
                         Kept(Fetched(setup, p, release, delivery).value, delivery.written));
    }
  }

  /**
   After a failed write, the next request for the same digest is answered with what it left. That
   answer is wrong, and the cache no longer faithful, exactly when what is left has another digest.
   */
  lemma FailedPutIsServed(setup: Setup, files: Files, p: PackageRef, q: PackageRef, release: Release,
          delivery: Delivery, next: Delivery)
    requires PutFails(setup, files, p, release, delivery) && release.digest.Valid()
    ensures var (files', r) := ServeContent(setup, files, p, release, delivery);
            var left := Kept(Fetched(setup, p, release, delivery).value, delivery.written);
            && r.Err?
            && ServeContent(setup, files', q, release, next) == (files', Ok(left))
            && (Faithful(setup, files) ==> (Faithful(setup, files') <==> setup.hash(left) == release.digest))
  {
    if Faithful(setup, files) {
      PutContentFaithful(setup, files, release.digest,
                         Kept(Fetched(setup, p, release, delivery).value, delivery.written));
    }
  }

  /**
   Content with another digest than the one asked for: the client without a cache refuses it, and so
   does the caching client the first time. The second time it gives out whatever of it was written, and
   that can be all of it.
   */
  lemma CorruptContentServed(setup: Setup, p: PackageRef, release: Release, raw: seq<Item>, delivery: Delivery,
          next: Delivery)
    requires setup.online && setup.upstream.content(p, release) == Some(raw) && Complete(setup, p, release, delivery)
    requires NoFailure(raw) && setup.hash(Content(raw)) != release.digest
    ensures setup.DirectContent(p, release) == None
    ensures var (files, first) := ServeContent(setup, map[], p, release, delivery);
            var written := Content(raw)[..Min(delivery.written, |Content(raw)|)];
            && first == Err(())
            && ServeContent(setup, files, p, release, next) == (files, Ok(written))
            && (|Content(raw)| <= delivery.written ==> written == Content(raw))
  {
    var stream := Validated(setup.hash, release.digest, raw);
    ValidatedContent(setup.hash, release.digest, raw);
    assert stream == raw + [Fail] && stream[..|raw|] == raw;
    FirstFailureIs(stream, |raw|);
  }

  /** A release once answered is in the cache, and is answered again, without the registry. */
  lemma AnsweredReleaseStays(setup: Setup, files: Files, p: PackageRef, v: Version)
    requires setup.Valid() && ServeRelease(setup, files, p, v).1.Ok?
    ensures var (files', r) := ServeRelease(setup, files, p, v);
            && ReadRelease(setup.codec, setup.printVersion, files', p, v) == Ok(Some(r.value))
            && ServeRelease(setup.(online := false), files', p, v) == (files', r)
  {
    if ReadRelease(setup.codec, setup.printVersion, files, p, v) == Ok(None) {
      WriteReleaseRead(setup.codec, setup.printVersion, files, p, setup.upstream.release(p, v).value);
    }
  }

  /** Content once answered is in the cache, and is answered again, without the registry. */
  lemma AnsweredContentStays(setup: Setup, files: Files, p: PackageRef, release: Release, delivery: Delivery,
          q: PackageRef, next: Delivery)
    requires ServeContent(setup, files, p, release, delivery).1.Ok?
    ensures var (files', r) := ServeContent(setup, files, p, release, delivery);
            && ReadData(files', release.digest) == Some(r.value)
            && ServeContent(setup.(online := false), files', q, release, next) == (files', r)
  {
    if ReadData(files, release.digest).None? {
      FetchedInFull(setup, p, release, delivery);
    }
  }

  // ---------- runs of requests ----------

  datatype Request =
    | WantRelease(package: PackageRef, version: Version)
    | WantContent(package: PackageRef, release: Release, delivery: Delivery)

  function Serve(setup: Setup, files: Files, request: Request): Files {
    match request
    case WantRelease(p, v) => ServeRelease(setup, files, p, v).0
    case WantContent(p, release, delivery) => ServeContent(setup, files, p, release, delivery).0
  }

  function FilesAfter(setup: Setup, requests: seq<Request>): Files {
    if requests == [] then map[]
    else Serve(setup, FilesAfter(setup, requests[..|requests| - 1]), requests[|requests| - 1])
  }

  predicate ValidDigests(requests: seq<Request>) {
    forall r :: r in requests && r.WantContent? ==> r.release.digest.Valid()
  }

  /** A request for content that the registry has, so that it is fetched unless it is cached. */
  predicate Fetches(setup: Setup, r: Request) {
    r.WantContent? && Fetched(setup, r.package, r.release, r.delivery).Some?
  }

  function StreamOf(setup: Setup, r: Request): seq<Item>
    requires Fetches(setup, r)
  {
    Fetched(setup, r.package, r.release, r.delivery).value
  }

  /** What the fetch of a request leaves in the cache. */
  function LeftBy(setup: Setup, r: Request): Bytes
    requires Fetches(setup, r)
  {
    Kept(StreamOf(setup, r), r.delivery.written)
  }

  /** The first of the requests that fetches content for a digest. */
  function FirstFetch(setup: Setup, requests: seq<Request>, d: ContentDigest): (r: Option<Request>)
    ensures r.Some? ==> r.value in requests && Fetches(setup, r.value) && r.value.release.digest == d
    ensures r.None? ==> forall q :: q in requests && Fetches(setup, q) ==> q.release.digest != d
  {
    if requests == [] then None
    else
      var last := requests[|requests| - 1];
      assert requests == requests[..|requests| - 1] + [last];
      var before := FirstFetch(setup, requests[..|requests| - 1], d);
      if before.None? && Fetches(setup, last) && last.release.digest == d then Some(last) else before
  }

  /** Under a digest there is what the first fetch for it left. */
  predicate HoldsFirst(setup: Setup, requests: seq<Request>, files: Files, d: ContentDigest) {
    var first := FirstFetch(setup, requests, d);
    ReadData(files, d) == if first.Some? then Some(LeftBy(setup, first.value)) else None
  }

  /** What is in the cache after any requests, whatever fails: faithful releases, and what first fetches left. */
  lemma {:induction false} RunFiles(setup: Setup, requests: seq<Request>)
    requires setup.Valid() && ValidDigests(requests)
    ensures ReleasesFaithful(setup, FilesAfter(setup, requests))
    ensures forall d: ContentDigest :: d.Valid() ==> HoldsFirst(setup, requests, FilesAfter(setup, requests), d)
  {
    if requests != [] {
      var before, last := requests[..|requests| - 1], requests[|requests| - 1];
      RunFiles(setup, before);
      var files := FilesAfter(setup, before);
      assert forall d: ContentDigest :: d.Valid() ==> HoldsFirst(setup, before, files, d);
      match last {
        case WantRelease(p, v) => ReleaseAnswers(setup, files, p, v);
        case WantContent(p, release, delivery) =>
          assert last in requests;
          if ReadData(files, release.digest).None? && Fetches(setup, last) {
            WriteDataRead(setup.codec, setup.printVersion, files, release.digest, LeftBy(setup, last));
            forall q, w
              ensures ReleaseFaithful(setup, Serve(setup, files, last), q, w)
            {
              assert ReleaseFaithful(setup, files, q, w);
            }
          }
      }
    }
  }

  /** The fetch meets no error, or only after it has left bytes that have the digest asked for. */
  predicate Harmless(setup: Setup, r: Request)
    requires Fetches(setup, r)
  {
    !NoFailure(StreamOf(setup, r)) ==> setup.hash(LeftBy(setup, r)) == r.release.digest
  }

  predicate FirstHarmless(setup: Setup, requests: seq<Request>, d: ContentDigest) {
    var first := FirstFetch(setup, requests, d);
    first.Some? ==> Harmless(setup, first.value)
  }

  /**
   Exactly when the cache is faithful after a run: when each first fetch of a digest was harmless. That
   depends on the requests, the registry and how far the fetches got, and not on the cache.
   */
  lemma RunFaithfulExactly(setup: Setup, requests: seq<Request>)
    requires setup.Valid() && ValidDigests(requests)
    ensures Faithful(setup, FilesAfter(setup, requests)) <==>
            forall d: ContentDigest :: d.Valid() ==> FirstHarmless(setup, requests, d)
  {
    var files := FilesAfter(setup, requests);
    RunFiles(setup, requests);
    forall d: ContentDigest | d.Valid()
      ensures ContentFaithful(setup, files, d) <==> FirstHarmless(setup, requests, d)
    {
      assert HoldsFirst(setup, requests, files, d);
      if FirstFetch(setup, requests, d).Some? {
        var first := FirstFetch(setup, requests, d).value;
        FetchedWhole(setup, first.package, first.release, first.delivery);
      }
    }
  }

  /** Asking for a release after any run: it is what the registry says, and online there is an answer. */
  lemma ReleasesRefineRegistry(setup: Setup, requests: seq<Request>, p: PackageRef, v: Version)
    requires setup.Valid() && ValidDigests(requests)
    ensures var got := ServeRelease(setup, FilesAfter(setup, requests), p, v).1;
            && (got.Ok? ==> setup.upstream.release(p, v) == Some(got.value))
            && (setup.online && setup.upstream.release(p, v).Some? ==> got.Ok?)
  {
    RunFiles(setup, requests);
    ReleaseAnswers(setup, FilesAfter(setup, requests), p, v);
  }

  /**
   Asking for content after any run. If a request before has fetched the digest, the answer is what the
   first of them left, and if that met no error, it is what the client without a cache gives for that
   request. If none has, it is what that client gives now. The answer has the digest exactly when the first
   fetch was harmless; and then, and only then, it is what the client without a cache gives now, unless the
   two contents are different and have the same hash.
   */
  lemma ContentRefinesRegistry(setup: Setup, requests: seq<Request>, p: PackageRef, release: Release,
          delivery: Delivery)
    requires setup.Valid() && ValidDigests(requests) && release.digest.Valid()
    ensures var answer := ServeContent(setup, FilesAfter(setup, requests), p, release, delivery).1;
            var first := FirstFetch(setup, requests, release.digest);
            var direct := setup.DirectContent(p, release);
            var harmless := FirstHarmless(setup, requests, release.digest);
            && (first.Some? ==> answer == Ok(LeftBy(setup, first.value)))
            && (first.Some? && NoFailure(StreamOf(setup, first.value)) ==>
                  setup.DirectContent(first.value.package, first.value.release) == Some(answer.value))
            && (first.None? && answer.Ok? ==> direct == Some(answer.value))
            && (answer.Ok? ==> (setup.hash(answer.value) == release.digest <==> harmless))
            && (answer.Ok? && direct.Some?
                && (setup.hash(answer.value) == setup.hash(direct.value) ==> answer.value == direct.value) ==>
                  (answer.value == direct.value <==> harmless))
            && (setup.online && direct.Some? && Complete(setup, p, release, delivery) ==> answer.Ok?)
  {
    var d := release.digest;
    var first := FirstFetch(setup, requests, d);
    RunFiles(setup, requests);
    assert HoldsFirst(setup, requests, FilesAfter(setup, requests), d);
    if first.Some? {
      FetchedWhole(setup, first.value.package, first.value.release, first.value.delivery);
    }
    if Fetched(setup, p, release, delivery).Some? {
      FetchedWhole(setup, p, release, delivery);
    }
    if setup.DirectContent(p, release).Some? {
      ValidatedContent(setup.hash, d, setup.upstream.content(p, release).value);
    }
  }

  /**
   No hash needed: once the first fetch of a digest was complete, and the client without a cache accepts
   it, every later request for that digest, for whatever package, is answered with what that client gives
   for the first one.
   */
  lemma FetchedOnceForAll(setup: Setup, before: seq<Request>, r: Request, after: seq<Request>, p: PackageRef,
          release: Release, delivery: Delivery)
    requires setup.Valid() && ValidDigests(before + [r] + after) && release.digest.Valid()
    requires Fetches(setup, r) && r.release.digest == release.digest
    requires FirstFetch(setup, before, release.digest).None?
    requires Complete(setup, r.package, r.release, r.delivery) && setup.DirectContent(r.package, r.release).Some?
    ensures ServeContent(setup, FilesAfter(setup, before + [r] + after), p, release, delivery).1 ==
            Ok(setup.DirectContent(r.package, r.release).value)
  {
    FetchedWhole(setup, r.package, r.release, r.delivery);
    FirstFetchStays(setup, before, r, after);
    ContentRefinesRegistry(setup, before + [r] + after, p, release, delivery);
  }

  /** Requests that come later do not change which one was first. */
  lemma {:induction false} FirstFetchStays(setup: Setup, before: seq<Request>, r: Request, after: seq<Request>)
    requires Fetches(setup, r) && FirstFetch(setup, before, r.release.digest).None?
    ensures FirstFetch(setup, before + [r] + after, r.release.digest) == Some(r)
  {
    if after == [] {
      assert before + [r] + after == before + [r];
      FirstFetchAppended(setup, before, r, r.release.digest);
    } else {
      var init, last := after[..|after| - 1], after[|after| - 1];
      assert before + [r] + after == before + [r] + init + [last];
      FirstFetchStays(setup, before, r, init);
      FirstFetchAppended(setup, before + [r] + init, last, r.release.digest);
    }
  }

  lemma FirstFetchAppended(setup: Setup, requests: seq<Request>, last: Request, d: ContentDigest)
    ensures FirstFetch(setup, requests + [last], d) ==
            if FirstFetch(setup, requests, d).Some? then FirstFetch(setup, requests, d)
            else if Fetches(setup, last) && last.release.digest == d then Some(last)
            else None
  {
    assert (requests + [last])[..|requests|] == requests;
  }

  // ---------- working offline ----------

  /** Which releases are in the cache after any requests: those that were asked for and the registry has. */
  lemma {:induction false} RunReleases(setup: Setup, requests: seq<Request>, p: PackageRef, v: Version)
    requires setup.Valid() && ValidDigests(requests)
    ensures ReadRelease(setup.codec, setup.printVersion, FilesAfter(setup, requests), p, v) ==
            if setup.online && WantRelease(p, v) in requests && setup.upstream.release(p, v).Some?
            then Ok(setup.upstream.release(p, v)) else Ok(None)
  {
    if requests != [] {
      var before, last := requests[..|requests| - 1], requests[|requests| - 1];
      assert requests == before + [last];
      var files := FilesAfter(setup, before);
      RunReleases(setup, before, p, v);
      match last {
        case WantRelease(q, w) =>
          RunReleases(setup, before, q, w);
          if setup.upstream.release(q, w).Some? {
            WriteReleaseRead(setup.codec, setup.printVersion, files, q, setup.upstream.release(q, w).value);
          }
        case WantContent(q, release, delivery) =>
          assert last in requests;
          if Fetches(setup, last) {
            WriteDataRead(setup.codec, setup.printVersion, files, release.digest, LeftBy(setup, last));
          }
      }
    }
  }

  /**
   What a client that has gone offline after any online run answers: the releases that were asked for and
   the registry has, what the first fetch of a digest left, and nothing else; and it leaves the cache alone.
   */
  lemma OfflineAnswersExactly(setup: Setup, requests: seq<Request>, p: PackageRef, v: Version, release: Release,
          delivery: Delivery)
    requires setup.Valid() && setup.online && ValidDigests(requests) && release.digest.Valid()
    ensures var files := FilesAfter(setup, requests);
            var first := FirstFetch(setup, requests, release.digest);
            && ServeRelease(setup.(online := false), files, p, v) ==
               (files, if WantRelease(p, v) in requests && setup.upstream.release(p, v).Some?
                       then Ok(setup.upstream.release(p, v).value) else Err(()))
            && ServeContent(setup.(online := false), files, p, release, delivery) ==
               (files, if first.Some? then Ok(LeftBy(setup, first.value)) else Err(()))
  {
    RunReleases(setup, requests, p, v);
    RunFiles(setup, requests);
    assert HoldsFirst(setup, requests, FilesAfter(setup, requests), release.digest);
  }
}
