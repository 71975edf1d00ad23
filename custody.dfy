/**
 * `get_file_hash`: the chain-of-custody digest, computed by feeding the
 * file to a SHA-256 hasher in blocks of at most 4096 bytes. SHA-256 itself
 * is the parameter `sha`, a function from the bytes absorbed to the hex digest.
 */
module Custody {

  newtype byte = x: int | 0 <= x < 256

  type Digest = string

  const ChunkSize: nat := 4096

  /** The bytes of a list of blocks, in order. */
  function Concat(blocks: seq<seq<byte>>): seq<byte>
  {
    if |blocks| == 0 then [] else Concat(blocks[..|blocks| - 1]) + blocks[|blocks| - 1]
  }

  /** `hashlib.sha256()`: its observable state is the byte string absorbed so far. */
  class Hasher {
    var absorbed: seq<byte>

    constructor ()
      ensures absorbed == []
    {
      absorbed := [];
    }

    /** `update(block)` */
    method Update(block: seq<byte>)
      modifies this
      ensures absorbed == old(absorbed) + block
    {
      absorbed := absorbed + block;
    }

    /** `hexdigest()` */
    function HexDigest(sha: seq<byte> -> Digest): Digest
      reads this
    {
      sha(absorbed)
    }
  }

  /** A file opened with `open(path, "rb")`: its content and the read offset. */
  class BinaryFile {
    const content: seq<byte>
    var offset: nat

    ghost predicate Valid()
      reads this
    {
      offset <= |content|
    }

    constructor Open(content: seq<byte>)
      ensures Valid() && this.content == content && offset == 0
    {
      this.content := content;
      offset := 0;
    }

    /** `f.read(n)`: the next min(n, remaining) bytes; empty at end of file. */
    method Read(n: nat) returns (block: seq<byte>)
      requires Valid()
      modifies this
      ensures Valid()
      ensures |block| == if n <= |content| - old(offset) then n else |content| - old(offset)
      ensures offset == old(offset) + |block|
      ensures block == content[old(offset)..offset]
    {
      var stop := if n <= |content| - offset then offset + n else |content|;
      block := content[offset..stop];
      offset := stop;
    }
  }

  /**
   * `get_file_hash(file_path)`. The digest is that of the whole content, so
   * it does not depend on the block size; the blocks read are non-empty, at
   * most ChunkSize long, all full but the last, and together the content.
   */
  method GetFileHash(content: seq<byte>, sha: seq<byte> -> Digest)
    returns (digest: Digest, ghost blocks: seq<seq<byte>>)
    ensures digest == sha(content)
    ensures Concat(blocks) == content
    ensures forall i :: 0 <= i < |blocks| ==> 0 < |blocks[i]| <= ChunkSize
    ensures forall i :: 0 <= i < |blocks| - 1 ==> |blocks[i]| == ChunkSize
  {
    var hasher := new Hasher();
    var f := new BinaryFile.Open(content);
    blocks := [];
    var block := f.Read(ChunkSize);
    while |block| != 0
      invariant f.Valid() && f.content == content
      invariant hasher.absorbed == Concat(blocks)
      invariant Concat(blocks) + block == content[..f.offset]
      invariant |block| <= ChunkSize
      invariant |block| < ChunkSize ==> f.offset == |content|
      invariant forall i :: 0 <= i < |blocks| ==> 0 < |blocks[i]| <= ChunkSize
      invariant forall i :: 0 <= i < |blocks| - 1 ==> |blocks[i]| == ChunkSize
      invariant 0 < |blocks| && |blocks[|blocks| - 1]| < ChunkSize ==> |block| == 0
      decreases |content| - f.offset + |block|
    {
      hasher.Update(block);
      assert Concat(blocks + [block]) == Concat(blocks) + block by {
        assert (blocks + [block])[..|blocks|] == blocks;
      }
      blocks := blocks + [block];
      ghost var before := f.offset;
      block := f.Read(ChunkSize);
      assert content[..f.offset] == content[..before] + block;
    }
    assert content[..f.offset] == content;
    digest := hasher.HexDigest(sha);
  }
}
