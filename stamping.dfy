/**
 * The records of the stamp list (struct vfs_stamping), the identity of the
 * filesystem classes and session ids they name, the comparator
 * vfs_stamp_compare, and the scan g_slist_find_custom runs with it.
 */
module Stamping {
  import opened Timeval

  /**
   * struct vfs_class, reduced to what gc.c reads of it. Classes are compared
   * by identity, as the C pointers are.
   */
  class VfsClass {
    const local: bool             // VFSF_LOCAL is set in its flags
    const hasFree: bool           // its free hook is not NULL
    const hasNothingIsOpen: bool  // its nothingisopen hook is not NULL

    constructor (local: bool, hasFree: bool, hasNothingIsOpen: bool)
      ensures this.local == local && this.hasFree == hasFree
      ensures this.hasNothingIsOpen == hasNothingIsOpen
    {
      this.local := local;
      this.hasFree := hasFree;
      this.hasNothingIsOpen := hasNothingIsOpen;
    }
  }

  /** vfsid: an opaque session handle, possibly NULL. */
  datatype VfsId = NullId | Id(handle: nat)

  /** struct vfs_stamping: a class, a session of it, and when it was last touched. */
  datatype Stamping = Stamping(v: VfsClass, id: VfsId, time: TimeVal)

  /** The record belongs to session `id` of class `v`. */
  predicate Matches(st: Stamping, v: VfsClass, id: VfsId)
  {
    st.v == v && st.id == id
  }

  /** vfs_stamp_compare: 0 when both records name the same (class, id), 1 otherwise. */
  function StampCompare(a: Stamping, b: Stamping): (r: int)
    ensures r == 0 || r == 1
    ensures r == 0 <==> Matches(a, b.v, b.id)
  {
    if a.v == b.v && a.id == b.id then 0 else 1
  }

  /**
   * Position of the first record of (v, id), or -1. The contract says what
   * the first match is: it matches and nothing before it does.
   */
  function IndexOf(s: seq<Stamping>, v: VfsClass, id: VfsId): (r: int)
    ensures -1 <= r < |s|
    ensures r >= 0 ==> Matches(s[r], v, id)
    ensures forall k | 0 <= k < |s| && (r < 0 || k < r) :: !Matches(s[k], v, id)
  {
    if s == [] then -1
    else if Matches(s[0], v, id) then 0
    else
      var k := IndexOf(s[1..], v, id);
      if k < 0 then -1 else k + 1
  }

  /**
   * g_slist_find_custom (stamps, &what, vfs_stamp_compare): scans the list
   * from the head and stops at the first record the comparator calls equal.
   */
  method FindCustom(s: seq<Stamping>, what: Stamping) returns (r: int)
    ensures r == IndexOf(s, what.v, what.id)
  {
    r := 0;
    while r < |s| && StampCompare(s[r], what) != 0
      invariant 0 <= r <= |s|
      invariant forall k | 0 <= k < r :: !Matches(s[k], what.v, what.id)
    {
      r := r + 1;
    }
    if r == |s| {
      r := -1;
    }
  }

  /** Number of records of (v, id). */
  function Count(s: seq<Stamping>, v: VfsClass, id: VfsId): nat
  {
    if s == [] then 0
    else Count(s[..|s| - 1], v, id) + (if Matches(s[|s| - 1], v, id) then 1 else 0)
  }

  /** The guard of vfs_addstamp: a non-local class and a non-NULL id. */
  predicate Stampable(v: VfsClass, id: VfsId)
  {
    !v.local && id != NullId
  }

  /** No two records name the same (class, id). */
  predicate UniqueKeys(s: seq<Stamping>)
  {
    forall i, j | 0 <= i < j < |s| :: !Matches(s[i], s[j].v, s[j].id)
  }

  /**
   * The invariant of the stamp list: every record passed vfs_addstamp's
   * guard, and no (class, id) has two records.
   */
  predicate Wellformed(s: seq<Stamping>)
  {
    (forall k | 0 <= k < |s| :: Stampable(s[k].v, s[k].id)) && UniqueKeys(s)
  }

  /** In a list without duplicates a (class, id) has one record if found and none otherwise. */
  lemma {:induction false} CountIsOneIffFound(s: seq<Stamping>, v: VfsClass, id: VfsId)
    requires UniqueKeys(s)
    ensures Count(s, v, id) == (if IndexOf(s, v, id) >= 0 then 1 else 0)
  {
    if s != [] {
      var p := s[..|s| - 1];
      assert UniqueKeys(p);
      CountIsOneIffFound(p, v, id);
      if IndexOf(p, v, id) >= 0 {
        var i := IndexOf(p, v, id);
        assert s[i] == p[i];
        assert !Matches(s[|s| - 1], v, id) by {
          assert !Matches(s[i], s[|s| - 1].v, s[|s| - 1].id);
        }
      } else {
        assert forall k | 0 <= k < |p| :: s[k] == p[k];
      }
    }
  }
}
