/**
 * The handle table (`fhs_opened`): a vector of (fh, ino) bindings, scanned
 * by is_fh_allocated and get_ino and filtered in place by free_fh.
 */
module HandleTable {
  import opened Wrappers
  import opened Types

  /** One binding (fh, ino). */
  type Binding = (nat, u64)

  /** is_fh_allocated: some binding has handle `fh`. */
  function IsAllocated(t: seq<Binding>, fh: nat): (r: bool)
    ensures r <==> exists i :: 0 <= i < |t| && t[i].0 == fh
  {
    if t == [] then false
    else if t[0].0 == fh then true
    else
      var r := IsAllocated(t[1..], fh);
      assert r ==> exists i :: 1 <= i < |t| && t[i].0 == fh by {
        if r {
          var k :| 0 <= k < |t[1..]| && t[1..][k].0 == fh;
          assert t[k + 1].0 == fh;
        }
      }
      r
  }

  /** No binding among the first `n` of `t` has handle `fh`. */
  ghost predicate UnboundBefore(t: seq<Binding>, n: nat, fh: nat)
    requires n <= |t|
  {
    forall j :: 0 <= j < n ==> t[j].0 != fh
  }

  /** The inode of the earliest binding for `fh`. */
  function FirstIno(t: seq<Binding>, fh: nat): (ino: u64)
    requires IsAllocated(t, fh)
    ensures exists i :: 0 <= i < |t| && t[i] == (fh, ino) && UnboundBefore(t, i, fh)
  {
    if t[0].0 == fh then t[0].1
    else
      var ino := FirstIno(t[1..], fh);
      assert exists i :: 1 <= i < |t| && t[i] == (fh, ino) && UnboundBefore(t, i, fh) by {
        var k :| 0 <= k < |t[1..]| && t[1..][k] == (fh, ino) && UnboundBefore(t[1..], k, fh);
        assert t[k + 1] == (fh, ino) && UnboundBefore(t, k + 1, fh);
      }
      ino
  }

  /** get_ino: None when `fh` is unbound, else the inode of its earliest binding. */
  function InoOf(t: seq<Binding>, fh: nat): (r: Option<u64>)
    ensures r.None? <==> !IsAllocated(t, fh)
    ensures r.Some? ==> exists i :: 0 <= i < |t| && t[i] == (fh, r.value) && UnboundBefore(t, i, fh)
  {
    if !IsAllocated(t, fh) then None else Some(FirstIno(t, fh))
  }

  /** `retain(|a| a.0 != fh)`: the bindings of other handles, in their order. */
  function Retained(t: seq<Binding>, fh: nat): (r: seq<Binding>)
    ensures forall b :: b in r <==> b in t && b.0 != fh
    ensures |r| <= |t|
  {
    if t == [] then []
    else if t[0].0 == fh then Retained(t[1..], fh)
    else [t[0]] + Retained(t[1..], fh)
  }

  /** Filtering distributes over concatenation, so what it keeps stays in order. */
  lemma {:induction false} RetainedAppend(a: seq<Binding>, b: seq<Binding>, fh: nat)
    ensures Retained(a + b, fh) == Retained(a, fh) + Retained(b, fh)
  {
    if a == [] {
      assert a + b == b;
    } else {
      assert (a + b)[0] == a[0] && (a + b)[1..] == a[1..] + b;
      RetainedAppend(a[1..], b, fh);
    }
  }

  /** After free_fh(fh), `fh` is no longer allocated. */
  lemma RetainedUnbinds(t: seq<Binding>, fh: nat)
    ensures !IsAllocated(Retained(t, fh), fh)
  {
  }

  /** Freeing an unbound handle leaves the table as it was. */
  lemma {:induction false} RetainedUnboundIsIdentity(t: seq<Binding>, fh: nat)
    requires !IsAllocated(t, fh)
    ensures Retained(t, fh) == t
  {
    if t != [] {
      assert !IsAllocated(t[1..], fh);
      RetainedUnboundIsIdentity(t[1..], fh);
    }
  }

  /** free_fh is idempotent. */
  lemma RetainedIdempotent(t: seq<Binding>, fh: nat)
    ensures Retained(Retained(t, fh), fh) == Retained(t, fh)
  {
    RetainedUnbinds(t, fh);
    RetainedUnboundIsIdentity(Retained(t, fh), fh);
  }

  /** Freeing one handle does not change which inode another handle resolves to. */
  lemma {:induction false} RetainedKeepsOthers(t: seq<Binding>, fh: nat, other: nat)
    requires other != fh
    ensures InoOf(Retained(t, fh), other) == InoOf(t, other)
  {
    if t != [] {
      RetainedKeepsOthers(t[1..], fh, other);
      if t[0].0 != fh {
        assert Retained(t, fh) == [t[0]] + Retained(t[1..], fh);
        InoOfCons(t[0], Retained(t[1..], fh), other);
      }
      InoOfCons(t[0], t[1..], other);
      assert t == [t[0]] + t[1..];
    }
  }

  /** get_ino on a table with one more binding at the front. */
  lemma InoOfCons(b: Binding, t: seq<Binding>, fh: nat)
    ensures InoOf([b] + t, fh) == if b.0 == fh then Some(b.1) else InoOf(t, fh)
  {
    var s := [b] + t;
    assert s[1..] == t;
    if b.0 != fh {
      assert IsAllocated(s, fh) == IsAllocated(t, fh);
      if IsAllocated(t, fh) {
        assert FirstIno(s, fh) == FirstIno(t, fh);
      }
    }
  }

  /** get_ino after allocate_fh pushed `b`: earlier bindings still come first. */
  lemma {:induction false} InoOfAppend(t: seq<Binding>, b: Binding, fh: nat)
    ensures InoOf(t + [b], fh) == if IsAllocated(t, fh) then InoOf(t, fh) else if b.0 == fh then Some(b.1) else None
  {
    if t == [] {
      assert t + [b] == [b] + [];
      InoOfCons(b, [], fh);
    } else {
      assert t + [b] == [t[0]] + (t[1..] + [b]);
      InoOfCons(t[0], t[1..] + [b], fh);
      InoOfCons(t[0], t[1..], fh);
      assert t == [t[0]] + t[1..];
      InoOfAppend(t[1..], b, fh);
    }
  }

}
