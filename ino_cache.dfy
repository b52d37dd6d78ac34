/**
 * The inode-to-parent hint cache (INOCache): a vector of (ino, parent) pairs
 * that `add` appends to, dropping the oldest pair first when the vector is
 * already longer than 256, and that `find_parent` scans from the oldest end.
 */
module Cache {
  import opened Wrappers
  import opened Types

  /** `add` evicts when the length before the push is above this. */
  const EVICT_ABOVE: nat := 256
  /** Hence the longest the cache can get: one more than EVICT_ABOVE. */
  const MAX_ENTRIES: nat := EVICT_ABOVE + 1

  datatype CacheEntry = CacheEntry(ino: u64, parentIno: u64)

  /** No entry among the first `n` of `s` is for `ino`. */
  ghost predicate NoneBefore(s: seq<CacheEntry>, n: nat, ino: u64)
    requires n <= |s|
  {
    forall j :: 0 <= j < n ==> s[j].ino != ino
  }

  /** The parent recorded by the earliest entry of `s` for `ino`. */
  function FirstParent(s: seq<CacheEntry>, ino: u64): (r: Option<u64>)
    ensures r.None? <==> NoneBefore(s, |s|, ino)
    ensures r.Some? ==> exists i :: 0 <= i < |s| && s[i] == CacheEntry(ino, r.value) && NoneBefore(s, i, ino)
  {
    if s == [] then None
    else if s[0].ino == ino then Some(s[0].parentIno)
    else
      var r := FirstParent(s[1..], ino);
      assert r.Some? ==> exists i :: 1 <= i < |s| && s[i] == CacheEntry(ino, r.value) && NoneBefore(s, i, ino) by {
        if r.Some? {
          var k :| 0 <= k < |s[1..]| && s[1..][k] == CacheEntry(ino, r.value) && NoneBefore(s[1..], k, ino);
          assert s[k + 1] == CacheEntry(ino, r.value) && NoneBefore(s, k + 1, ino);
        }
      }
      r
  }

  /** The cache contents after add(parentIno, ino). */
  function Inserted(s: seq<CacheEntry>, parentIno: u64, ino: u64): (r: seq<CacheEntry>)
    ensures |s| <= MAX_ENTRIES ==> |r| <= MAX_ENTRIES
    ensures |r| > 0 && r[|r| - 1] == CacheEntry(ino, parentIno)
    ensures FirstParent(r, ino).Some?
  {
    (if |s| > EVICT_ABOVE then s[1..] else s) + [CacheEntry(ino, parentIno)]
  }

  /** Looking an inode up in two concatenated runs of entries: the first run wins. */
  lemma {:induction false} FirstParentAppend(s: seq<CacheEntry>, t: seq<CacheEntry>, ino: u64)
    ensures FirstParent(s + t, ino) == if FirstParent(s, ino).Some? then FirstParent(s, ino) else FirstParent(t, ino)
  {
    if s == [] {
      assert s + t == t;
    } else {
      assert (s + t)[1..] == s[1..] + t;
      FirstParentAppend(s[1..], t, ino);
    }
  }

  /**
   * A later add for an inode that already has a surviving hint does not
   * change what find_parent answers: the oldest hint wins, not the newest.
   */
  lemma OldestHintWins(s: seq<CacheEntry>, parentIno: u64, ino: u64)
    requires FirstParent(s, ino).Some?
    requires |s| > EVICT_ABOVE ==> s[0].ino != ino
    ensures FirstParent(Inserted(s, parentIno, ino), ino) == FirstParent(s, ino)
  {
    var kept := if |s| > EVICT_ABOVE then s[1..] else s;
    if |s| > EVICT_ABOVE {
      assert s == [s[0]] + kept;
      FirstParentAppend([s[0]], kept, ino);
    }
    FirstParentAppend(kept, [CacheEntry(ino, parentIno)], ino);
  }

  /** After add(parentIno, ino) on a cache with no hint for `ino`, the hint is `parentIno`. */
  lemma NewHintFound(s: seq<CacheEntry>, parentIno: u64, ino: u64)
    requires FirstParent(s, ino).None?
    ensures FirstParent(Inserted(s, parentIno, ino), ino) == Some(parentIno)
  {
    var kept := if |s| > EVICT_ABOVE then s[1..] else s;
    if |s| > EVICT_ABOVE {
      assert s == [s[0]] + kept;
      FirstParentAppend([s[0]], kept, ino);
    }
    FirstParentAppend(kept, [CacheEntry(ino, parentIno)], ino);
  }

  /** add leaves the hints for every other inode as they were, unless the evicted entry held them. */
  lemma OtherHintsKept(s: seq<CacheEntry>, parentIno: u64, ino: u64, other: u64)
    requires other != ino
    requires |s| > EVICT_ABOVE ==> s[0].ino != other
    ensures FirstParent(Inserted(s, parentIno, ino), other) == FirstParent(s, other)
  {
    var kept := if |s| > EVICT_ABOVE then s[1..] else s;
    if |s| > EVICT_ABOVE {
      assert s == [s[0]] + kept;
      FirstParentAppend([s[0]], kept, other);
    }
    FirstParentAppend(kept, [CacheEntry(ino, parentIno)], other);
  }

  /** The cache after a run of adds, each pair given as (parentIno, ino). */
  function InsertAll(s: seq<CacheEntry>, adds: seq<(u64, u64)>): seq<CacheEntry>
    decreases |adds|
  {
    if adds == [] then s else InsertAll(Inserted(s, adds[0].0, adds[0].1), adds[1..])
  }

  /** The entries a run of adds would make if nothing were evicted. */
  function Entries(adds: seq<(u64, u64)>): (r: seq<CacheEntry>)
    ensures |r| == |adds|
    ensures forall i :: 0 <= i < |adds| ==> r[i] == CacheEntry(adds[i].1, adds[i].0)
  {
    seq(|adds|, i requires 0 <= i < |adds| => CacheEntry(adds[i].1, adds[i].0))
  }

  /** Up to 257 entries fit: a run of adds that ends there evicts nothing. */
  lemma {:induction false} NoEvictionUpToCapacity(s: seq<CacheEntry>, adds: seq<(u64, u64)>)
    requires |s| + |adds| <= MAX_ENTRIES
    ensures InsertAll(s, adds) == s + Entries(adds)
    decreases |adds|
  {
    if adds != [] {
      var s' := Inserted(s, adds[0].0, adds[0].1);
      assert s' == s + Entries(adds[..1]);
      NoEvictionUpToCapacity(s', adds[1..]);
      assert Entries(adds[..1]) + Entries(adds[1..]) == Entries(adds);
    }
  }

  /**
   * Starting from an empty cache, the 258th add is the first to evict, and it
   * evicts the entry of the very first add.
   */
  lemma FirstEvictionDropsOldest(adds: seq<(u64, u64)>)
    requires |adds| == MAX_ENTRIES + 1
    ensures InsertAll([], adds) == Entries(adds[1..])
  {
    var full := adds[..MAX_ENTRIES];
    var last := adds[MAX_ENTRIES];
    NoEvictionUpToCapacity([], full);
    InsertAllSplit([], full, [last]);
    assert full + [last] == adds;
    assert InsertAll([], adds) == Inserted(Entries(full), last.0, last.1);
    assert Entries(full)[1..] + [CacheEntry(last.1, last.0)] == Entries(adds[1..]);
  }

  /** A run of adds can be split anywhere. */
  lemma {:induction false} InsertAllSplit(s: seq<CacheEntry>, a: seq<(u64, u64)>, b: seq<(u64, u64)>)
    ensures InsertAll(s, a + b) == InsertAll(InsertAll(s, a), b)
    decreases |a|
  {
    if a == [] {
      assert a + b == b;
    } else {
      assert (a + b)[0] == a[0] && (a + b)[1..] == a[1..] + b;
      InsertAllSplit(Inserted(s, a[0].0, a[0].1), a[1..], b);
    }
  }

  /** However many adds, a cache that starts within the bound stays within it. */
  lemma {:induction false} InsertAllBounded(s: seq<CacheEntry>, adds: seq<(u64, u64)>)
    requires |s| <= MAX_ENTRIES
    ensures |InsertAll(s, adds)| <= MAX_ENTRIES
    decreases |adds|
  {
    if adds != [] {
      InsertAllBounded(Inserted(s, adds[0].0, adds[0].1), adds[1..]);
    }
  }

  class InoCache {
    var container: seq<CacheEntry>

    ghost predicate Valid()
      reads this
    {
      |container| <= MAX_ENTRIES
    }

    /** INOCache::new */
    constructor ()
      ensures Valid() && container == []
      ensures forall ino :: FindParent(ino) == None
    {
      container := [];
    }

    /** add(parent_ino, ino) */
    method Add(parentIno: u64, ino: u64)
      requires Valid()
      modifies this
      ensures Valid()
      ensures container == Inserted(old(container), parentIno, ino)
      ensures container[|container| - 1] == CacheEntry(ino, parentIno)
      ensures |old(container)| <= EVICT_ABOVE ==> container == old(container) + [CacheEntry(ino, parentIno)]
      ensures |old(container)| > EVICT_ABOVE ==> container == old(container)[1..] + [CacheEntry(ino, parentIno)]
      ensures FindParent(ino).Some?
      ensures old(FindParent(ino)).None? ==> FindParent(ino) == Some(parentIno)
    {
      if |container| > EVICT_ABOVE {
        container := container[1..];
      }
      container := container + [CacheEntry(ino, parentIno)];
      assert container[|container| - 1].ino == ino;
      if old(FindParent(ino)).None? {
        NewHintFound(old(container), parentIno, ino);
      }
    }

    /** find_parent(ino): the parent of the oldest surviving entry for `ino`. */
    function FindParent(ino: u64): (r: Option<u64>)
      reads this
      ensures r.None? <==> forall i :: 0 <= i < |container| ==> container[i].ino != ino
      ensures r.Some? ==> exists i :: 0 <= i < |container| && container[i] == CacheEntry(ino, r.value)
                                   && forall j :: 0 <= j < i ==> container[j].ino != ino
    {
      FirstParent(container, ino)
    }
  }

}
