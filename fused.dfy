/**
 * The adapter session (NoctFSFused): the handle counter, the handle table and
 * the inode cache, and the kernel callbacks that read and update them. Each
 * callback takes the store as it stands when the call arrives; where the
 * source calls one of the store's creating operations, the entity the store
 * hands back is a parameter.
 */
module Fused {
  import opened Wrappers
  import opened Types
  import opened Store
  import opened Attrs
  import opened Cache
  import opened HandleTable
  import opened Resolver

  datatype Errno = ENOENT | EIO | ENOSYS

  /** One entry a readdir reply carries: (ino, kind, name). */
  datatype DirEntry = DirEntry(ino: u64, kind: FileType, name: string)

  /** What a callback sends back to the kernel through its reply object. */
  datatype Reply =
    | Entry(attr: FileAttr)
    | Attr(attr: FileAttr)
    | Created(attr: FileAttr, fh: nat, flags: u32)
    | Opened(fh: nat, flags: u32)
    | Data(bytes: seq<byte>)
    | Written(count: u32)
    | Dir(entries: seq<DirEntry>)
    | StatFs(blocks: nat, bfree: nat, bavail: nat, files: nat, ffree: nat, bsize: nat, namelen: nat, frsize: nat)
    | Ok
    | Err(errno: Errno)
    | NoReply                 // the callback recurses without end and never replies

  /** The readdir entry for one listed entity. */
  function DirEntryOf(e: Entity): (d: DirEntry)
    ensures d.ino == e.startBlock && d.name == e.name
    ensures d.kind == Directory <==> e.directory
  {
    DirEntry(e.startBlock, Kind(e), e.name)
  }

  /** The callbacks whose whole body is a fixed reply. */
  datatype OtherOp =
    | Init | Readlink | Mknod | Rmdir | Symlink | Rename | Link
    | Flush | Release | Fsync | Releasedir | Fsyncdir
    | Setxattr | Getxattr | Listxattr | Removexattr | Getlk | Setlk | Bmap

  /** The reply of a callback that only replies: success for the no-ops, ENOSYS for the stubs. */
  function OtherReply(op: OtherOp): (r: Reply)
    ensures r == Ok <==> op in {Init, Flush, Release, Fsync, Releasedir, Fsyncdir}
    ensures r != Ok ==> r == Err(ENOSYS)
  {
    match op
    case Init | Flush | Release | Fsync | Releasedir | Fsyncdir => Ok
    case _ => Err(ENOSYS)
  }

  /** What a callback replies for a resolver outcome that is not an entity. */
  function Unresolved(o: SearchOutcome): Reply
    requires !o.Found?
  {
    if o.Diverges? then NoReply else Err(ENOENT)
  }

  /** opendir binds a handle exactly for the root inode and for a resolved directory. */
  ghost predicate OpensDir(fs: Store, ino: u64)
  {
    ino == 1 || (Resolve(fs, ino).Found? && Resolve(fs, ino).e.directory)
  }

  /**
   * For any inode other than 1, opendir can bind a handle only when the
   * resolver came back with the root entity itself: the entities it finds in
   * the root listing are never directories.
   */
  lemma OpendirBindsOnlyViaRoot(fs: Store, ino: u64)
    requires ino != 1 && OpensDir(fs, ino)
    ensures fs.root.Some? && Resolve(fs, ino) == Found(fs.root.value)
  {
  }

  class NoctFSFused {
    var globalFh: nat
    var fhsOpened: seq<Binding>
    const inoCache: InoCache

    /** Every bound handle was drawn from the counter before, so the next id is unused. */
    ghost predicate Valid()
      reads this, inoCache
    {
      && inoCache.Valid()
      && forall i :: 0 <= i < |fhsOpened| ==> fhsOpened[i].0 < globalFh
    }

    /** The session `main` builds before mounting. */
    constructor ()
      ensures Valid() && fresh(inoCache)
      ensures globalFh == 0 && fhsOpened == [] && inoCache.container == []
    {
      globalFh := 0;
      fhsOpened := [];
      inoCache := new InoCache();
    }

    /** next_fh: hand out the counter and step it by one. */
    method NextFh() returns (fh: nat)
      requires Valid()
      modifies this
      ensures Valid()
      ensures fh == old(globalFh) && globalFh == old(globalFh) + 1
      ensures fhsOpened == old(fhsOpened)
      ensures !IsAllocated(fhsOpened, fh)
    {
      fh := globalFh;
      globalFh := globalFh + 1;
    }

    /** allocate_fh: bind a drawn handle to an inode. */
    method AllocateFh(fh: nat, ino: u64)
      requires Valid() && fh < globalFh
      modifies this
      ensures Valid()
      ensures fhsOpened == old(fhsOpened) + [(fh, ino)] && globalFh == old(globalFh)
      ensures !old(IsAllocated(fhsOpened, fh)) ==> InoOf(fhsOpened, fh) == Some(ino)
      ensures forall g :: g != fh ==> InoOf(fhsOpened, g) == old(InoOf(fhsOpened, g))
    {
      fhsOpened := fhsOpened + [(fh, ino)];
      forall g | true
        ensures InoOf(fhsOpened, g) == if old(IsAllocated(fhsOpened, g)) then old(InoOf(fhsOpened, g))
                                       else if fh == g then Some(ino) else None
      {
        InoOfAppend(old(fhsOpened), (fh, ino), g);
      }
    }

    /** free_fh: drop every binding of `fh`, keeping the rest in order (`retain`). */
    method FreeFh(fh: nat)
      requires Valid()
      modifies this
      ensures Valid()
      ensures fhsOpened == Retained(old(fhsOpened), fh) && globalFh == old(globalFh)
      ensures !IsAllocated(fhsOpened, fh)
    {
      var table := fhsOpened;
      var kept: seq<Binding> := [];
      var i := 0;
      while i < |table|
        invariant 0 <= i <= |table|
        invariant kept == Retained(table[..i], fh)
        invariant unchanged(this)
      {
        assert table[..i + 1] == table[..i] + [table[i]];
        RetainedAppend(table[..i], [table[i]], fh);
        if table[i].0 != fh {
          kept := kept + [table[i]];
        }
        i := i + 1;
      }
      assert table[..i] == table;
      forall k | 0 <= k < |kept| ensures kept[k].0 < globalFh {
        assert kept[k] in table;
      }
      fhsOpened := kept;
      RetainedUnbinds(table, fh);
    }

    /** lookup(parent, name): find the name in the parent's listing; on a hit record the parent hint. */
    method Lookup(fs: Store, parent: u64, name: string) returns (reply: Reply)
      requires Valid()
      modifies inoCache
      ensures Valid()
      ensures var hit := FirstNamed(ListDirectory(fs, parent), name);
              match hit
              case None => reply == Err(ENOENT) && inoCache.container == old(inoCache.container)
              case Some(e) => reply == Entry(ToFuseAttrs(e, fs.blockSize))
                              && inoCache.container == Inserted(old(inoCache.container), parent, e.startBlock)
                              && inoCache.FindParent(e.startBlock).Some?
    {
      var entity := SearchByFilename(fs, parent, name);
      if entity.None? {
        return Err(ENOENT);
      }
      reply := Entry(ToFuseAttrs(entity.value, fs.blockSize));
      inoCache.Add(parent, entity.value.startBlock);
    }

    /** getattr(ino): the fixed root record for inode 1, else the resolved entity's attributes. */
    method Getattr(fs: Store, ino: u64) returns (reply: Reply)
      ensures ino == 1 ==> reply == Attr(RootAttrs())
      ensures ino != 1 ==> match Resolve(fs, ino)
                           case Found(e) => reply == Attr(ToFuseAttrs(e, fs.blockSize))
                           case NotFound => reply == Err(ENOENT)
                           case Diverges => reply == NoReply
    {
      if ino == 1 {
        return Attr(RootAttrs());
      }
      var entity := SearchByBlock(fs, ino);
      if entity.Found? {
        reply := Attr(ToFuseAttrs(entity.e, fs.blockSize));
      } else {
        reply := Unresolved(entity);
      }
    }

    /** mkdir(parent, name): the store creates `created`; reply with it and record the parent hint. */
    method Mkdir(fs: Store, parent: u64, created: Entity) returns (reply: Reply)
      requires Valid()
      modifies inoCache
      ensures Valid()
      ensures reply == Entry(ToFuseAttrs(created, fs.blockSize))
      ensures inoCache.container == Inserted(old(inoCache.container), parent, created.startBlock)
      ensures inoCache.FindParent(created.startBlock).Some?
    {
      reply := Entry(ToFuseAttrs(created, fs.blockSize));
      inoCache.Add(parent, created.startBlock);
    }

    /** unlink(parent, name): ENOENT unless the name is listed; then the store deletes it. */
    method Unlink(fs: Store, parent: u64, name: string) returns (reply: Reply)
      ensures reply == (if FirstNamed(ListDirectory(fs, parent), name).None? then Err(ENOENT) else Ok)
    {
      var entity := SearchByFilename(fs, parent, name);
      if entity.None? {
        return Err(ENOENT);
      }
      reply := Ok;
    }

    /** open(ino, flags): draw a handle id and reply with it; the id is never bound. */
    method Open(ino: u64, flags: u32) returns (reply: Reply)
      requires Valid()
      modifies this
      ensures Valid()
      ensures reply == Opened(old(globalFh), 0)
      ensures globalFh == old(globalFh) + 1 && fhsOpened == old(fhsOpened)
      ensures !IsAllocated(fhsOpened, reply.fh)
    {
      var fh := NextFh();
      reply := Opened(fh, 0);
    }

    /**
     * read(ino, fh, offset, size): EIO without a parent hint, ENOENT when the
     * hinted parent has no such child, else the `size`-byte buffer the store
     * filled. The handle plays no part.
     */
    method Read(fs: Store, ino: u64, fh: nat, offset: i64, size: u32) returns (reply: Reply)
      requires Valid()
      ensures match inoCache.FindParent(ino)
              case None => reply == Err(EIO)
              case Some(parent) =>
                match EntityByParentAndBlock(fs, parent, ino)
                case None => reply == Err(ENOENT)
                case Some(e) => reply == Data(ReadContents(fs, e, I64AsU64(offset), size))
      ensures reply.Data? ==> |reply.bytes| == size
    {
      var dirIno := inoCache.FindParent(ino);
      if dirIno.None? {
        return Err(EIO);
      }
      var ent := EntityByParentAndBlock(fs, dirIno.value, ino);
      if ent.None? {
        return Err(ENOENT);
      }
      var data := ReadContents(fs, ent.value, I64AsU64(offset), size);
      reply := Data(data);
    }

    /**
     * write(ino, fh, offset, data): the same two failures as read, else the
     * store writes the bytes and the reply counts all of them.
     */
    method Write(fs: Store, ino: u64, fh: nat, offset: i64, data: seq<byte>) returns (reply: Reply)
      requires Valid()
      // `_offset.try_into().unwrap()` panics on a negative offset once both lookups succeed
      requires offset < 0 ==> inoCache.FindParent(ino).None?
                              || EntityByParentAndBlock(fs, inoCache.FindParent(ino).value, ino).None?
      ensures match inoCache.FindParent(ino)
              case None => reply == Err(EIO)
              case Some(parent) =>
                match EntityByParentAndBlock(fs, parent, ino)
                case None => reply == Err(ENOENT)
                case Some(e) => reply == Written(UsizeAsU32(|data|))
      ensures reply.Written? && |data| < U32_LIMIT ==> reply.count == |data|
    {
      var dirIno := inoCache.FindParent(ino);
      if dirIno.None? {
        return Err(EIO);
      }
      var ent := EntityByParentAndBlock(fs, dirIno.value, ino);
      if ent.None? {
        return Err(ENOENT);
      }
      reply := Written(UsizeAsU32(|data|));
    }

    /** opendir(ino, flags): bind a fresh handle for the root or a resolved directory; else ENOENT. */
    method Opendir(fs: Store, ino: u64, flags: u32) returns (reply: Reply)
      requires Valid()
      modifies this
      ensures Valid()
      ensures OpensDir(fs, ino) ==>
                && reply == Opened(old(globalFh), flags)
                && globalFh == old(globalFh) + 1
                && fhsOpened == old(fhsOpened) + [(old(globalFh), ino)]
                && InoOf(fhsOpened, reply.fh) == Some(ino)
      ensures !OpensDir(fs, ino) ==>
                && reply == (if Resolve(fs, ino).Diverges? then NoReply else Err(ENOENT))
                && globalFh == old(globalFh) && fhsOpened == old(fhsOpened)
    {
      if ino == 1 {
        var fh := NextFh();
        AllocateFh(fh, 1);
        return Opened(fh, flags);
      }
      var ent := SearchByBlock(fs, ino);
      if !ent.Found? {
        return Unresolved(ent);
      }
      if !ent.e.directory {
        return Err(ENOENT);
      }
      var fh := NextFh();
      AllocateFh(fh, ino);
      reply := Opened(fh, flags);
    }

    /**
     * readdir(ino, fh): an unbound handle gets an empty successful listing;
     * a bound one gets every entity the store lists for `ino`, in order,
     * and is then freed.
     */
    method Readdir(fs: Store, ino: u64, fh: nat) returns (reply: Reply)
      requires Valid()
      modifies this
      ensures Valid()
      ensures globalFh == old(globalFh)
      ensures !old(IsAllocated(fhsOpened, fh)) ==> reply == Dir([]) && fhsOpened == old(fhsOpened)
      ensures old(IsAllocated(fhsOpened, fh)) ==>
                && reply.Dir?
                && |reply.entries| == |ListDirectory(fs, ino)|
                && (forall i :: 0 <= i < |reply.entries| ==> reply.entries[i] == DirEntryOf(ListDirectory(fs, ino)[i]))
                && fhsOpened == Retained(old(fhsOpened), fh)
      ensures !IsAllocated(fhsOpened, fh)
    {
      if !IsAllocated(fhsOpened, fh) {
        return Dir([]);
      }
      var ents := ListDirectory(fs, ino);
      var entries: seq<DirEntry> := [];
      for i := 0 to |ents|
        invariant |entries| == i
        invariant forall k :: 0 <= k < i ==> entries[k] == DirEntryOf(ents[k])
      {
        entries := entries + [DirEntryOf(ents[i])];
      }
      reply := Dir(entries);
      FreeFh(fh);
    }

    /** access(ino): success exactly when the resolver finds the inode. */
    method Access(fs: Store, ino: u64) returns (reply: Reply)
      ensures match Resolve(fs, ino)
              case Found(_) => reply == Ok
              case NotFound => reply == Err(ENOENT)
              case Diverges => reply == NoReply
    {
      var a := SearchByBlock(fs, ino);
      if a.Found? {
        reply := Ok;
      } else {
        reply := Unresolved(a);
      }
    }

    /**
     * create(parent, name, flags): parent 1 stands for the root's own block;
     * the store creates `created`; the reply carries a drawn handle id that
     * is never bound, and the parent hint is recorded.
     */
    method Create(fs: Store, parent: u64, flags: u32, created: Entity) returns (reply: Reply)
      requires Valid()
      requires parent == 1 ==> fs.root.Some?
      modifies this, inoCache
      ensures Valid()
      ensures reply == Created(CreatedAttrs(created, fs.blockSize), old(globalFh), flags)
      ensures globalFh == old(globalFh) + 1 && fhsOpened == old(fhsOpened)
      ensures !IsAllocated(fhsOpened, reply.fh)
      ensures var dir := if parent == 1 then fs.root.value.startBlock else parent;
              inoCache.container == Inserted(old(inoCache.container), dir, created.startBlock)
    {
      var dir := parent;
      if parent == 1 {
        dir := fs.root.value.startBlock;
      }
      var attrs := CreatedAttrs(created, fs.blockSize);
      var fh := NextFh();
      reply := Created(attrs, fh, flags);
      inoCache.Add(dir, created.startBlock);
    }

    /** setattr(ino, ...): changes nothing; echoes the resolved entity's attributes under `ino`. */
    method Setattr(fs: Store, ino: u64) returns (reply: Reply)
      ensures match Resolve(fs, ino)
              case Found(e) => reply == Attr(EchoedAttrs(ino, e, fs.blockSize))
              case NotFound => reply == Err(ENOENT)
              case Diverges => reply == NoReply
    {
      var entry := SearchByBlock(fs, ino);
      if entry.Found? {
        reply := Attr(EchoedAttrs(ino, entry.e, fs.blockSize));
      } else {
        reply := Unresolved(entry);
      }
    }

    /** statfs: placeholder statistics, 512-byte blocks and 255-byte names. */
    method Statfs() returns (reply: Reply)
      ensures reply == StatFs(0, 0, 0, 0, 0, 512, 255, 0)
    {
      reply := StatFs(0, 0, 0, 0, 0, 512, 255, 0);
    }

    /** Every other callback: its fixed reply, and the session is left as it is. */
    method Other(op: OtherOp) returns (reply: Reply)
      ensures reply == OtherReply(op)
    {
      reply := OtherReply(op);
    }
  }

  /**
   * A directory listing is single-shot: of two readdir calls on one handle,
   * the second gets the empty listing, and no handle id is drawn by either.
   */
  method ReaddirIsSingleShot(s: NoctFSFused, fs: Store, ino: u64, fh: nat) returns (first: Reply, second: Reply)
    requires s.Valid()
    modifies s
    ensures s.Valid()
    ensures second == Dir([])
    ensures old(IsAllocated(s.fhsOpened, fh)) ==> first.Dir? && |first.entries| == |ListDirectory(fs, ino)|
    ensures s.globalFh == old(s.globalFh)
  {
    first := s.Readdir(fs, ino, fh);
    second := s.Readdir(fs, ino, fh);
  }

  /**
   * read after a successful lookup does not fail for want of a parent hint;
   * on a fresh session, read without it does.
   */
  method LookupThenRead(s: NoctFSFused, fs: Store, parent: u64, name: string, fh: nat, offset: i64, size: u32)
    returns (looked: Reply, read: Reply)
    requires s.Valid()
    modifies s.inoCache
    ensures s.Valid()
    ensures looked.Entry? ==> read != Err(EIO)
    ensures looked.Entry? && old(s.inoCache.FindParent(looked.attr.ino)).None? ==> read.Data? && |read.bytes| == size
    ensures looked == Err(ENOENT) ==> s.inoCache.container == old(s.inoCache.container)
  {
    looked := s.Lookup(fs, parent, name);
    if looked.Entry? {
      var e := FirstNamed(ListDirectory(fs, parent), name).value;
      if old(s.inoCache.FindParent(e.startBlock)).None? {
        NewHintFound(old(s.inoCache.container), parent, e.startBlock);
      }
      read := s.Read(fs, looked.attr.ino, fh, offset, size);
    } else {
      read := Err(EIO);
    }
  }

  /** On a fresh session every read fails with EIO: no parent hint is known yet. */
  method FreshSessionReadFails(fs: Store, ino: u64, fh: nat, offset: i64, size: u32) returns (reply: Reply)
    ensures reply == Err(EIO)
  {
    var s := new NoctFSFused();
    reply := s.Read(fs, ino, fh, offset, size);
  }

}
