/**
 * The `noctfs` entity store as the adapter sees it. The store itself is a
 * library outside this model; here it is a value that answers the read-only
 * questions the adapter asks (the root entity, directory listings, entity
 * lookup by parent and block, file bytes). What the store's mutating calls
 * do on disk is not modelled.
 */
module Store {
  import opened Wrappers
  import opened Types

  /** A file or directory record; `startBlock` doubles as the inode number. */
  datatype Entity = Entity(name: string, startBlock: u64, size: u64, directory: bool)

  datatype Store = Store(
    root: Option<Entity>,             // get_root_entity; None when the store reports an error
    listings: map<u64, seq<Entity>>,  // list_directory, by directory block
    contents: map<u64, seq<byte>>,    // file bytes, by the file's start block
    blockSize: u64)                   // block_size

  /** list_directory: the children of the directory at `block`; none for an unknown block. */
  function ListDirectory(fs: Store, block: u64): seq<Entity>
  {
    if block in fs.listings then fs.listings[block] else []
  }

  /** The first entity of `s` whose start block is `block`. */
  function FirstWithBlock(s: seq<Entity>, block: u64): (r: Option<Entity>)
    ensures r.None? <==> forall i :: 0 <= i < |s| ==> s[i].startBlock != block
    ensures r.Some? ==> r.value in s && r.value.startBlock == block
  {
    if s == [] then None
    else if s[0].startBlock == block then Some(s[0])
    else FirstWithBlock(s[1..], block)
  }

  /** get_entity_by_parent_and_block: the child of `parent` that starts at `block`. */
  function EntityByParentAndBlock(fs: Store, parent: u64, block: u64): Option<Entity>
  {
    FirstWithBlock(ListDirectory(fs, parent), block)
  }

  /**
   * read_contents_by_entity into a zeroed buffer of `size` bytes: the file's
   * bytes from `offset` on, and zeros past the end of the file.
   */
  function ReadContents(fs: Store, e: Entity, offset: u64, size: nat): (r: seq<byte>)
    ensures |r| == size
  {
    var data := if e.startBlock in fs.contents then fs.contents[e.startBlock] else [];
    seq(size, i requires 0 <= i < size => if offset + i < |data| then data[offset + i] else 0)
  }

}
