/** The content hasher: the chunked reader and the prefix or full digest
    of a file. */
module Hashing {
  import opened FileSystem

  /** Chunk size of the reader and length of the prefix that the first
      stage of hashing looks at. */
  const BlockSize: nat := 1024

  /** The SHA-1 digest of a byte string. The model keeps the hashed bytes
      themselves, so two digests are equal exactly when their inputs are. */
  datatype Digest = Sha1Of(input: seq<Byte>)

  function Min(a: nat, b: nat): nat
  {
    if a < b then a else b
  }

  /** What `f.read(1024)` returns on a freshly opened file. */
  function Prefix(content: seq<Byte>): (r: seq<Byte>)
    ensures |r| == Min(BlockSize, |content|)
    ensures content == r + content[|r|..]
  {
    content[..Min(BlockSize, |content|)]
  }

  /** The chunks that `chunk_reader` yields from `data` with chunk size `n`:
      it stops at the first empty read, so a chunk size of 0 yields none. */
  function Chunks(data: seq<Byte>, n: nat): seq<seq<Byte>>
    decreases |data|
  {
    if n == 0 || data == [] then []
    else
      var k := Min(n, |data|);
      [data[..k]] + Chunks(data[k..], n)
  }

  /** The concatenation of a sequence of chunks. */
  function Flatten(chunks: seq<seq<Byte>>): seq<Byte>
  {
    if chunks == [] then [] else Flatten(chunks[..|chunks| - 1]) + chunks[|chunks| - 1]
  }

  lemma {:induction false} FlattenCons(c: seq<Byte>, rest: seq<seq<Byte>>)
    ensures Flatten([c] + rest) == c + Flatten(rest)
    decreases |rest|
  {
    if rest == [] {
      assert [c] + rest == [c];
      assert Flatten([c]) == Flatten([]) + c;
    } else {
      var last := rest[|rest| - 1];
      var init := rest[..|rest| - 1];
      assert ([c] + rest)[..|[c] + rest| - 1] == [c] + init;
      FlattenCons(c, init);
      assert rest == init + [last];
      assert Flatten(rest) == Flatten(init) + last;
    }
  }

  /** Every chunk is non-empty and at most `n` bytes long, and for a
      positive chunk size the chunks put back together are the data. */
  lemma {:induction false} ChunksCover(data: seq<Byte>, n: nat)
    ensures forall i :: 0 <= i < |Chunks(data, n)| ==> 0 < |Chunks(data, n)[i]| <= n
    ensures n > 0 ==> Flatten(Chunks(data, n)) == data
    ensures n == 0 ==> Chunks(data, n) == []
    decreases |data|
  {
    if n == 0 || data == [] {
    } else {
      var k := Min(n, |data|);
      ChunksCover(data[k..], n);
      var rest := Chunks(data[k..], n);
      assert Chunks(data, n) == [data[..k]] + rest;
      FlattenCons(data[..k], rest);
      assert data == data[..k] + data[k..];
    }
  }

  /** The incremental SHA-1 object of `hashlib`: `update` appends to what
      has been fed, `digest` hashes all of it. */
  class Hasher {
    var fed: seq<Byte>

    constructor ()
      ensures fed == []
    {
      fed := [];
    }

    method Update(chunk: seq<Byte>)
      modifies this
      ensures fed == old(fed) + chunk
    {
      fed := fed + chunk;
    }

    function Digest(): (d: Digest)
      reads this
      ensures d.input == fed
    {
      Sha1Of(fed)
    }
  }

  /** `chunk_reader(fobj, chunk_size)`: reads until the first empty read and
      returns the chunks in order. The file is left at end of data, or
      untouched when the chunk size is 0. */
  method ChunkReader(f: BinaryFile, chunkSize: nat) returns (chunks: seq<seq<Byte>>)
    requires f.Valid()
    modifies f
    ensures f.Valid() && f.data == old(f.data)
    ensures chunks == Chunks(old(f.data[f.pos..]), chunkSize)
    ensures f.pos == if chunkSize == 0 then old(f.pos) else |f.data|
  {
    ghost var all := f.data[f.pos..];
    chunks := [];
    while true
      invariant f.Valid() && f.data == old(f.data) && old(f.pos) <= f.pos
      invariant chunkSize == 0 ==> f.pos == old(f.pos) && chunks == []
      invariant Chunks(all, chunkSize) == chunks + Chunks(f.data[f.pos..], chunkSize)
      decreases |f.data| - f.pos
    {
      ghost var before := f.data[f.pos..];
      var chunk := f.Read(chunkSize);
      if chunk == [] {
        return;
      }
      ghost var k := Min(chunkSize, |before|);
      assert chunk == before[..k] && f.data[f.pos..] == before[k..];
      assert Chunks(before, chunkSize) == [chunk] + Chunks(f.data[f.pos..], chunkSize);
      chunks := chunks + [chunk];
    }
  }

  /** The digest `get_hash` returns for `p`, or None for the OSError it
      raises: over the first 1024 bytes, or over the whole content. */
  function FileDigest(files: map<Path, seq<Byte>>, env: Env, p: Path, firstChunkOnly: bool): (r: Option<Digest>)
    ensures r.Some? <==> ReadBytes(files, env, p).Some?
    ensures r.Some? && firstChunkOnly ==> r.value.input == files[p][..Min(BlockSize, |files[p]|)]
    ensures r.Some? && !firstChunkOnly ==> r.value.input == files[p]
  {
    match ReadBytes(files, env, p)
    case None => None
    case Some(content) => Some(Sha1Of(if firstChunkOnly then Prefix(content) else content))
  }

  /** `get_hash(filename, first_chunk_only)`: one read of 1024 bytes, or an
      update per chunk of the reader. */
  method GetHash(disk: Disk, filename: Path, firstChunkOnly: bool) returns (r: Option<Digest>)
    ensures r == FileDigest(disk.files, disk.env, filename, firstChunkOnly)
  {
    var hashobj := new Hasher();
    var handle := disk.Open(filename);
    if handle.None? {
      return None;
    }
    var f := handle.value;
    ghost var content := ReadBytes(disk.files, disk.env, filename).value;
    assert f.data == content;
    if firstChunkOnly {
      var chunk := f.Read(BlockSize);
      assert f.data[..|chunk|] == chunk;
      hashobj.Update(chunk);
      assert hashobj.fed == Prefix(content);
    } else {
      assert f.data[f.pos..] == f.data;
      var chunks := ChunkReader(f, BlockSize);
      var i := 0;
      while i < |chunks|
        invariant 0 <= i <= |chunks|
        invariant hashobj.fed == Flatten(chunks[..i])
        modifies hashobj
      {
        assert chunks[..i + 1][..i] == chunks[..i];
        hashobj.Update(chunks[i]);
        i := i + 1;
      }
      assert chunks[..i] == chunks;
      ChunksCover(f.data, BlockSize);
      assert hashobj.fed == content;
    }
    r := Some(hashobj.Digest());
  }
}
