/** Content digests, their text form, and the stream that validates content against a digest. */
module Digests {
  import opened Wrappers

  datatype ContentDigest = Sha256(hex: string)
  {
    function Print(): string { PREFIX + hex }

    /** What parsing and hashing produce: 64 lowercase hexadecimal digits. */
    predicate Valid() {
      |hex| == 64 && forall i :: 0 <= i < 64 ==> IsLowerHex(hex[i])
    }
  }

  const PREFIX := "sha256:"

  predicate IsLowerHex(c: char) { '0' <= c <= '9' || 'a' <= c <= 'f' }

  predicate IsHex(c: char) { IsLowerHex(c) || 'A' <= c <= 'F' }

  function LowerChar(c: char): char {
    if 'A' <= c <= 'Z' then (c as int - 'A' as int + 'a' as int) as char else c
  }

  function ToLower(s: string): (r: string)
    ensures |r| == |s| && forall i :: 0 <= i < |s| ==> r[i] == LowerChar(s[i])
  {
    seq(|s|, i requires 0 <= i < |s| => LowerChar(s[i]))
  }

  datatype DigestError = MissingPrefix | WrongLength(length: nat) | NotHex(invalid: char)

  /** A digest parses exactly when it is the prefix and 64 hexadecimal digits of either case. */
  method ParseDigest(value: string) returns (r: Result<ContentDigest, DigestError>)
    ensures r.Ok? <==>
        PREFIX <= value && |value| == |PREFIX| + 64 && forall i :: |PREFIX| <= i < |value| ==> IsHex(value[i])
    ensures r.Ok? ==> r.value.Valid() && r.value.hex == ToLower(value[|PREFIX|..])
    ensures forall d: ContentDigest :: d.Valid() && d.Print() == value ==> r == Ok(d)
    ensures r.Ok? <==>
            && |value| == 71 && value[..7] == "sha256:"
            && forall i :: 7 <= i < 71 ==> '0' <= value[i] <= '9' || 'a' <= value[i] <= 'f' || 'A' <= value[i] <= 'F'
    ensures r.Ok? ==> |r.value.hex| == 64 && forall i :: 0 <= i < 64 ==>
        r.value.hex[i] == if 'A' <= value[i + 7] <= 'F' then value[i + 7] - 'A' + 'a' else value[i + 7]
    ensures r.Ok? ==> |r.value.Print()| == 71 && r.value.Print() == "sha256:" + r.value.hex
    ensures r == Err(MissingPrefix) <==> !(PREFIX <= value)
    ensures r.Err? && r.error.NotHex? ==> exists i ::
              && 7 <= i < |value| && !IsHex(value[i]) && r.error.invalid == LowerChar(value[i])
              && forall j :: 7 <= j < i ==> IsHex(value[j])
    ensures r.Err? && r.error.WrongLength? ==> r.error.length == |value| - |PREFIX| != 64
  {
    if !(PREFIX <= value) {
      return Err(MissingPrefix);
    }
    var hex := ToLower(value[|PREFIX|..]);
    if |hex| != 64 {
      return Err(WrongLength(|hex|));
    }
    var i := 0;
    while i < |hex|
      invariant 0 <= i <= |hex|
      invariant forall j :: 0 <= j < i ==> IsLowerHex(hex[j])
    {
      if !IsLowerHex(hex[i]) {
        assert !IsHex(value[|PREFIX| + i]);
        return Err(NotHex(hex[i]));
      }
      i := i + 1;
    }
    forall j | |PREFIX| <= j < |value|
      ensures IsHex(value[j])
    {
      assert IsLowerHex(hex[j - |PREFIX|]);
    }
    forall d: ContentDigest | d.Valid() && d.Print() == value
      ensures d.hex == hex
    {
      assert d.hex == value[|PREFIX|..];
    }
    return Ok(Sha256(hex));
  }

  // ---------- validating streams ----------

  type Bytes = seq<bv8>

  /** One item of a stream: a chunk of content, or an error. */
  datatype Item = Chunk(bytes: Bytes) | Fail

  /** A hash function on whole contents; the hasher of the source is fed chunk by chunk. */
  type Hash = Bytes -> ContentDigest

  /** All the content of a stream. */
  function Content(items: seq<Item>): Bytes {
    if items == [] then []
    else
      var last := items[|items| - 1];
      Content(items[..|items| - 1]) + if last.Chunk? then last.bytes else []
  }

  /** Content is what the chunks hold, one after the other. */
  lemma {:induction false} ContentConcat(s: seq<Item>, t: seq<Item>)
    ensures Content(s + t) == Content(s) + Content(t)
    ensures forall bytes :: Content([Chunk(bytes)]) == bytes
    ensures Content([Fail]) == []
  {
    assert Content([Fail][..0]) == [];
    forall bytes
      ensures Content([Chunk(bytes)]) == bytes
    {
      assert [Chunk(bytes)][..0] == [];
    }
    if t == [] {
      assert s + t == s;
    } else {
      assert (s + t)[..|s + t| - 1] == s + t[..|t| - 1];
      ContentConcat(s, t[..|t| - 1]);
    }
  }

  predicate NoFailure(items: seq<Item>) {
    Fail !in items
  }

  /** Position of the first error, or the length. */
  function FirstFailure(items: seq<Item>): (i: nat)
    ensures i <= |items| && (i < |items| ==> items[i] == Fail) && NoFailure(items[..i])
    ensures NoFailure(items) <==> i == |items|
  {
    if items == [] then 0
    else if items[0] == Fail then 0
    else
      assert items == [items[0]] + items[1..];
      var i := 1 + FirstFailure(items[1..]);
      assert items[..i] == [items[0]] + items[1..][..i - 1];
      i
  }

  lemma FirstFailureIs(items: seq<Item>, i: nat)
    requires i <= |items| && NoFailure(items[..i]) && (i < |items| ==> items[i] == Fail)
    ensures FirstFailure(items) == i
  {
  }

  /** What a reader gets that stops at the first error. */
  function Received(items: seq<Item>): Bytes {
    Content(items[..FirstFailure(items)])
  }

  /** The validated stream: the same items, and an error at the end if the digest is another. */
  function Validated(hash: Hash, want: ContentDigest, stream: seq<Item>): seq<Item> {
    if hash(Content(stream)) == want then stream else stream + [Fail]
  }

  /** A reader that meets no error has all the content, and it has the digest. */
  lemma ValidatedContent(hash: Hash, want: ContentDigest, stream: seq<Item>)
    ensures NoFailure(Validated(hash, want, stream)) <==> NoFailure(stream) && hash(Content(stream)) == want
    ensures NoFailure(Validated(hash, want, stream)) ==> hash(Received(Validated(hash, want, stream))) == want
    ensures NoFailure(Validated(hash, want, stream)) ==> Received(Validated(hash, want, stream)) == Content(stream)
  {
    var out := Validated(hash, want, stream);
    if hash(Content(stream)) != want {
      assert out[|stream|] == Fail;
    } else {
      assert out[..|out|] == out;
    }
  }

  /** Passes a stream on, and ends it with an error if its content does not have the digest. */
  method ValidatingStream(hash: Hash, want: ContentDigest, stream: seq<Item>) returns (out: seq<Item>)
    ensures out == Validated(hash, want, stream)
    ensures out == if hash(Content(stream)) == want then stream else stream + [Fail]
  {
    out := [];
    var hashed: Bytes := [];
    var i := 0;
    while i < |stream|
      invariant 0 <= i <= |stream|
      invariant out == stream[..i] && hashed == Content(stream[..i])
    {
      assert stream[..i + 1][..i] == stream[..i];
      match stream[i] {
        case Chunk(bytes) =>
          hashed := hashed + bytes;
        case Fail =>
      }
      out := out + [stream[i]];
      i := i + 1;
    }
    assert stream[..|stream|] == stream;
    if hash(hashed) != want {
      out := out + [Fail];
    }
  }
}
