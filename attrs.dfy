/**
 * The attribute mapper: entity metadata to the kernel's file-stat record.
 * Timestamps are left out (they are clock reads or the epoch).
 */
module Attrs {
  import opened Types
  import opened Store

  /** Permission bits 0o755 (written in hexadecimal: Dafny has no octal literals). */
  const PERM_MAPPED: nat := 0x1ED
  /** Permission bits 0o666, used by the attribute records built inline. */
  const PERM_INLINE: nat := 0x1B6

  datatype FileType = Directory | RegularFile

  datatype FileAttr = FileAttr(
    ino: u64, size: u64, blocks: u64, kind: FileType, perm: nat,
    nlink: nat, uid: nat, gid: nat, rdev: nat, flags: nat)

  /** The file type the adapter reports for an entity. */
  function Kind(e: Entity): (k: FileType)
    ensures k == Directory <==> e.directory
    ensures k == RegularFile <==> !e.directory
  {
    if e.directory then Directory else RegularFile
  }

  /** `size * block_size` in `u64` arithmetic, which wraps around in a release build. */
  function Blocks(size: u64, blockSize: u64): (b: u64)
    ensures size * blockSize < U64_LIMIT ==> b == size * blockSize
  {
    var product: nat := size * blockSize;
    product % U64_LIMIT
  }

  /** entity_attrs_to_fuse_attrs */
  function ToFuseAttrs(e: Entity, blockSize: u64): (a: FileAttr)
    ensures a.ino == e.startBlock && a.size == e.size
    ensures a.blocks == Blocks(e.size, blockSize)
    ensures a.kind == Directory <==> e.directory
    ensures a.perm == PERM_MAPPED
    ensures a.nlink == 0 && a.uid == 0 && a.gid == 0 && a.rdev == 0 && a.flags == 0
  {
    FileAttr(e.startBlock, e.size, Blocks(e.size, blockSize), Kind(e), PERM_MAPPED, 0, 0, 0, 0, 0)
  }

  /** The fixed record getattr gives for the mount root, inode 1. */
  function RootAttrs(): (a: FileAttr)
    ensures a.ino == 1 && a.size == 4096 && a.blocks == 1 && a.kind == Directory
    ensures a.perm == PERM_INLINE
    ensures a.nlink == 0 && a.uid == 0 && a.gid == 0 && a.rdev == 0 && a.flags == 0
  {
    FileAttr(1, 4096, 1, Directory, PERM_INLINE, 0, 0, 0, 0, 0)
  }

  /** The record create builds inline for the new file: the mapper's, with 0o666. */
  function CreatedAttrs(e: Entity, blockSize: u64): (a: FileAttr)
    ensures a == ToFuseAttrs(e, blockSize).(perm := PERM_INLINE)
  {
    FileAttr(e.startBlock, e.size, Blocks(e.size, blockSize), Kind(e), PERM_INLINE, 0, 0, 0, 0, 0)
  }

  /** The record setattr echoes: the mapper's, with the requested inode and 0o666. */
  function EchoedAttrs(ino: u64, e: Entity, blockSize: u64): (a: FileAttr)
    ensures a == ToFuseAttrs(e, blockSize).(ino := ino, perm := PERM_INLINE)
  {
    FileAttr(ino, e.size, Blocks(e.size, blockSize), Kind(e), PERM_INLINE, 0, 0, 0, 0, 0)
  }

  /** The mapping looks only at block, size and kind: the name plays no part. */
  lemma AttrsIgnoreName(e: Entity, name: string, blockSize: u64)
    ensures ToFuseAttrs(e.(name := name), blockSize) == ToFuseAttrs(e, blockSize)
  {
  }

}
