/**
 The hasher: md5sum reads a file block after block and feeds every block to an
 incremental digest. The digest itself is abstract; since MD5's incremental
 update digests the concatenation of what it was fed, the model collects the fed
 bytes and applies the digest to them once at the end.
 */
module Hashing {
  import opened Records

  /** The default block size of md5sum. */
  const BlockSize: int := 1024

  /**
   One `file.read(size)` at offset `pos`: at most `size` bytes, or everything
   that is left when `size` is negative.
   */
  function ReadBlock(content: Content, pos: nat, size: int): (data: Content)
    requires pos <= |content|
    ensures pos + |data| <= |content| && data == content[pos..pos + |data|]
    ensures size < 0 ==> pos + |data| == |content|
    ensures size >= 0 ==> |data| == if pos + size <= |content| then size else |content| - pos
  {
    if size < 0 || pos + size > |content| then content[pos..] else content[pos..pos + size]
  }

  /**
   The bytes md5sum feeds to the digest for `path`: the whole file when it can
   be read (a block size of 0 reads nothing), and nothing when it cannot be
   opened, so that an unreadable file gets the digest of empty input.
   */
  function FedBytes(disk: Disk, path: string, blockSize: int): Content
  {
    if path in disk.readable && blockSize != 0 then disk.readable[path] else []
  }

  /** The digest md5sum returns for `path`. */
  function FileHash(cfg: Config, disk: Disk, path: string): string
  {
    cfg.digest(FedBytes(disk, path, BlockSize))
  }

  /** md5sum(file_path, block_size): the block loop, proved to feed exactly `FedBytes`. */
  method Md5Sum(digest: Hasher, disk: Disk, path: string, blockSize: int) returns (h: string)
    ensures path !in disk.readable ==> h == digest([])
    ensures path in disk.readable && blockSize != 0 ==> h == digest(disk.readable[path])
    ensures h == digest(FedBytes(disk, path, blockSize))
  {
    var fed: Content := [];
    if path in disk.readable {
      var content := disk.readable[path];
      var pos: nat := 0;
      while true
        invariant pos <= |content| && fed == content[..pos]
        invariant blockSize == 0 ==> pos == 0
        decreases |content| - pos
      {
        var data := ReadBlock(content, pos, blockSize);
        if data == [] {
          assert blockSize != 0 ==> pos == |content| && fed == content;
          break;
        }
        fed := fed + data;
        pos := pos + |data|;
      }
    }
    h := digest(fed);
  }

  /** Files with identical bytes get identical digests, whatever their paths. */
  lemma SameContentSameHash(cfg: Config, disk: Disk, p: string, q: string)
    requires p in disk.readable && q in disk.readable && disk.readable[p] == disk.readable[q]
    ensures FileHash(cfg, disk, p) == FileHash(cfg, disk, q)
  {
  }
}
