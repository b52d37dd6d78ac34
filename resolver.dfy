/**
 * The two scans the adapter runs over directory listings: search_by_filename
 * (first entity with a given name) and noct_search_by_block (the root scan
 * that looks for an entity by its start block).
 *
 * noct_search_by_block lists the root directory and, for each child in order,
 * first asks whether it is a directory and, if so, returns the result of
 * calling itself with that directory's OWN block as the new target (starting
 * again from the root); only otherwise does it compare the child's block
 * with the target. The recursive call therefore scans the same root listing
 * for the directory's block, reaches the same directory again and recurses
 * with the same target for ever, unless that block is 1 or a plain file
 * before the directory carries the same block. The model computes the first
 * scan and the one recursive call, proves that any further call repeats it
 * (DescentIsAFixpoint), and reports that case as Diverges.
 */
module Resolver {
  import opened Wrappers
  import opened Types
  import opened Store

  /** No entity among the first `n` of `s` is called `name`. */
  ghost predicate NoNameBefore(s: seq<Entity>, n: nat, name: string)
    requires n <= |s|
  {
    forall j :: 0 <= j < n ==> s[j].name != name
  }

  /** The first entity of the listing `s` called `name`. */
  function FirstNamed(s: seq<Entity>, name: string): (r: Option<Entity>)
    ensures r.None? <==> NoNameBefore(s, |s|, name)
    ensures r.Some? ==> exists i :: 0 <= i < |s| && s[i] == r.value && s[i].name == name && NoNameBefore(s, i, name)
  {
    if s == [] then None
    else if s[0].name == name then Some(s[0])
    else
      var r := FirstNamed(s[1..], name);
      assert r.Some? ==> exists i :: 1 <= i < |s| && s[i] == r.value && s[i].name == name && NoNameBefore(s, i, name) by {
        if r.Some? {
          var k :| 0 <= k < |s[1..]| && s[1..][k] == r.value && s[1..][k].name == name && NoNameBefore(s[1..], k, name);
          assert s[k + 1] == r.value && NoNameBefore(s, k + 1, name);
        }
      }
      r
  }

  /** search_by_filename: scan the listing of `directoryBlock` for `name`, stopping at the first hit. */
  method SearchByFilename(fs: Store, directoryBlock: u64, name: string) returns (r: Option<Entity>)
    ensures r == FirstNamed(ListDirectory(fs, directoryBlock), name)
    ensures r.Some? ==> r.value in ListDirectory(fs, directoryBlock) && r.value.name == name
  {
    var ents := ListDirectory(fs, directoryBlock);
    var i := 0;
    while i < |ents|
      invariant 0 <= i <= |ents|
      invariant NoNameBefore(ents, i, name)
    {
      if ents[i].name == name {
        return Some(ents[i]);
      }
      i := i + 1;
    }
    return None;
  }

  /** How one pass of the root scan ends. */
  datatype ScanStep =
    | Matched(e: Entity)      // a non-directory with the target block
    | Descend(block: u64)     // the first directory reached: recurse with its block
    | Exhausted               // neither: the loop ran out

  /** Every one of the first `n` entities was passed over: not a directory and not the target. */
  ghost predicate PassedOver(s: seq<Entity>, n: nat, block: u64)
    requires n <= |s|
  {
    forall j :: 0 <= j < n ==> !s[j].directory && s[j].startBlock != block
  }

  /** Where one pass of the root scan for `block` stops. */
  function Scan(s: seq<Entity>, block: u64): (r: ScanStep)
    ensures r.Exhausted? <==> PassedOver(s, |s|, block)
    ensures r.Matched? ==> exists i :: 0 <= i < |s| && s[i] == r.e && !s[i].directory && s[i].startBlock == block && PassedOver(s, i, block)
    ensures r.Descend? ==> exists i :: 0 <= i < |s| && s[i].directory && s[i].startBlock == r.block && PassedOver(s, i, block)
  {
    if s == [] then Exhausted
    else if s[0].directory then Descend(s[0].startBlock)
    else if s[0].startBlock == block then Matched(s[0])
    else
      var r := Scan(s[1..], block);
      assert r.Matched? ==> exists i :: 1 <= i < |s| && s[i] == r.e && !s[i].directory && s[i].startBlock == block && PassedOver(s, i, block) by {
        if r.Matched? {
          var k :| 0 <= k < |s[1..]| && s[1..][k] == r.e && !s[1..][k].directory && s[1..][k].startBlock == block && PassedOver(s[1..], k, block);
          assert s[k + 1] == r.e && PassedOver(s, k + 1, block);
        }
      }
      assert r.Descend? ==> exists i :: 1 <= i < |s| && s[i].directory && s[i].startBlock == r.block && PassedOver(s, i, block) by {
        if r.Descend? {
          var k :| 0 <= k < |s[1..]| && s[1..][k].directory && s[1..][k].startBlock == r.block && PassedOver(s[1..], k, block);
          assert s[k + 1].directory && PassedOver(s, k + 1, block);
        }
      }
      r
  }

  /** The loop of noct_search_by_block over the root listing, with its early returns. */
  method ScanListing(listing: seq<Entity>, block: u64) returns (r: ScanStep)
    ensures r == Scan(listing, block)
  {
    var i := 0;
    while i < |listing|
      invariant 0 <= i <= |listing|
      invariant Scan(listing, block) == Scan(listing[i..], block)
    {
      assert listing[i..][1..] == listing[i + 1..];
      if listing[i].directory {
        return Descend(listing[i].startBlock);
      }
      if listing[i].startBlock == block {
        return Matched(listing[i]);
      }
      i := i + 1;
    }
    return Exhausted;
  }

  /** What a call of noct_search_by_block comes to. */
  datatype SearchOutcome =
    | Found(e: Entity)   // returns Some(e)
    | NotFound           // returns None
    | Diverges           // recurses without end

  /**
   * noct_search_by_block(block): None when the root cannot be read; the root
   * for block 1; otherwise the root scan, where the first directory met
   * leads to the recursive call for that directory's block.
   */
  function Resolve(fs: Store, block: u64): (r: SearchOutcome)
    ensures fs.root.None? ==> r == NotFound
    ensures fs.root.Some? && block == 1 ==> r == Found(fs.root.value)
    // never an entity nested below the root's own listing
    ensures r.Found? ==>
              fs.root.Some? && (r.e == fs.root.value || (r.e in ListDirectory(fs, fs.root.value.startBlock) && !r.e.directory))
  {
    match fs.root
    case None => NotFound
    case Some(root) =>
      if block == 1 then Found(root)
      else
        match Scan(ListDirectory(fs, root.startBlock), block)
        case Matched(e) => Found(e)
        case Exhausted => NotFound
        case Descend(b) => Recursed(fs, root, b)
  }

  /**
   * The recursive call noct_search_by_block(b) made from inside the root
   * scan: it reads the same root and listing again; when its own scan
   * descends, it does so for `b` once more (DescentIsAFixpoint), so that
   * call repeats this one for ever.
   */
  function Recursed(fs: Store, root: Entity, b: u64): (r: SearchOutcome)
    ensures r.Found? ==>
              (r.e == root || (r.e in ListDirectory(fs, root.startBlock) && !r.e.directory && r.e.startBlock == b))
    ensures r.Diverges? ==> b != 1
  {
    if b == 1 then Found(root)
    else
      match Scan(ListDirectory(fs, root.startBlock), b)
      case Matched(e) => Found(e)
      case _ => Diverges
  }

  /**
   * When a scan descends into the directory at block `b`, the scan that the
   * recursive call makes for target `b` cannot run out: it either meets a
   * plain file at block `b` before that directory or descends into the very
   * same directory again, so the recursion makes no progress.
   */
  lemma DescentIsAFixpoint(s: seq<Entity>, block: u64, b: u64)
    requires Scan(s, block) == Descend(b)
    ensures Scan(s, b).Matched? || Scan(s, b) == Descend(b)
  {
    // The first directory of `s` has block `b`, and everything before it is a
    // plain file: Scan's contract leaves no other way for the rescan to end.
  }

  /** With no directory in the root listing, the search is a flat search by block and always ends. */
  lemma FlatRootIsFlatSearch(fs: Store, block: u64)
    requires fs.root.Some? && block != 1
    requires forall e :: e in ListDirectory(fs, fs.root.value.startBlock) ==> !e.directory
    ensures Resolve(fs, block) == match FirstWithBlock(ListDirectory(fs, fs.root.value.startBlock), block)
                                  case Some(e) => Found(e)
                                  case None => NotFound
  {
    FlatScan(ListDirectory(fs, fs.root.value.startBlock), block);
  }

  lemma {:induction false} FlatScan(s: seq<Entity>, block: u64)
    requires forall e :: e in s ==> !e.directory
    ensures Scan(s, block) == match FirstWithBlock(s, block) case Some(e) => Matched(e) case None => Exhausted
  {
    if s != [] && s[0].startBlock != block {
      assert forall e :: e in s[1..] ==> e in s;
      FlatScan(s[1..], block);
    }
  }

  /**
   * If start blocks in the root listing are distinct, a target other than 1
   * that the scan passes by descending into a directory whose block is not 1
   * makes the source recurse for ever.
   */
  lemma DistinctBlocksDiverge(fs: Store, block: u64, b: u64)
    requires fs.root.Some? && block != 1 && b != 1
    requires Scan(ListDirectory(fs, fs.root.value.startBlock), block) == Descend(b)
    requires var s := ListDirectory(fs, fs.root.value.startBlock);
             forall i, j :: 0 <= i < j < |s| ==> s[i].startBlock != s[j].startBlock
    ensures Resolve(fs, block) == Diverges
  {
    var s := ListDirectory(fs, fs.root.value.startBlock);
    DescentIsAFixpoint(s, block, b);
  }

  /**
   * No entity outside the root's own listing is ever found by its block,
   * whatever the tree below the root holds.
   */
  lemma NestedEntityIsNeverFound(fs: Store, f: Entity)
    requires fs.root.Some? && f != fs.root.value
    requires f !in ListDirectory(fs, fs.root.value.startBlock)
    ensures Resolve(fs, f.startBlock) != Found(f)
  {
  }

  /**
   * One example: a root holding one directory (block 5) that holds one file
   * (block 9). Searching for the file never returns.
   */
  lemma NestedFileIsNeverFound()
    ensures var file := Entity("f", 9, 3, false);
            var dir := Entity("d", 5, 0, true);
            var root := Entity("/", 2, 0, true);
            Resolve(Store(Some(root), map[2 := [dir], 5 := [file]], map[], 512), 9) == Diverges
  {
  }

  /** noct_search_by_block, as a method: the root scan and the one recursive call. */
  method SearchByBlock(fs: Store, block: u64) returns (r: SearchOutcome)
    ensures r == Resolve(fs, block)
  {
    if fs.root.None? {
      return NotFound;
    }
    var root := fs.root.value;
    if block == 1 {
      return Found(root);
    }
    var listing := ListDirectory(fs, root.startBlock);
    var step := ScanListing(listing, block);
    match step {
      case Matched(e) => r := Found(e);
      case Exhausted => r := NotFound;
      case Descend(b) =>
        // the recursive call noct_search_by_block(b)
        if b == 1 {
          r := Found(root);
        } else {
          var again := ScanListing(listing, b);
          if again.Matched? {
            r := Found(again.e);
          } else {
            DescentIsAFixpoint(listing, block, b);
            // again == Descend(b): the next call is this one again
            r := Diverges;
          }
        }
    }
  }

}
