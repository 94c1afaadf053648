/**
 * What the three registry operations of gc.c do to the stamp list, as
 * functions of the list: vfs_stamp (refresh), vfs_rmstamp (unlink) and
 * vfs_addstamp (insert if absent), with the properties they keep.
 */
module Registry {
  import opened Timeval
  import opened Stamping

  /**
   * The list after vfs_stamp (v, id) at time `now`: the first record of
   * (v, id), if there is one, gets the new time. Length and keys are kept.
   */
  function Touched(s: seq<Stamping>, v: VfsClass, id: VfsId, now: TimeVal): (r: seq<Stamping>)
    ensures |r| == |s|
    ensures forall k | 0 <= k < |s| :: r[k].v == s[k].v && r[k].id == s[k].id
    ensures IndexOf(s, v, id) < 0 ==> r == s
  {
    var i := IndexOf(s, v, id);
    if i < 0 then s else s[i := s[i].(time := now)]
  }

  /**
   * The list after vfs_rmstamp (v, id): the first record of (v, id), if
   * there is one, is unlinked; nothing else moves.
   */
  function Removed(s: seq<Stamping>, v: VfsClass, id: VfsId): (r: seq<Stamping>)
    ensures IndexOf(s, v, id) < 0 ==> r == s
    ensures IndexOf(s, v, id) >= 0 ==> |r| == |s| - 1
  {
    var i := IndexOf(s, v, id);
    if i < 0 then s else s[..i] + s[i + 1..]
  }

  /** Reference definition: the records of every other (class, id), in their order. */
  function Without(s: seq<Stamping>, v: VfsClass, id: VfsId): seq<Stamping>
  {
    if s == [] then []
    else (if Matches(s[0], v, id) then [] else [s[0]]) + Without(s[1..], v, id)
  }

  /**
   * The list after vfs_addstamp (v, id) at time `now`: unchanged for a local
   * class or a NULL id; otherwise refreshed if (v, id) is present, and
   * extended by one record at the end if not.
   */
  function AddStamped(s: seq<Stamping>, v: VfsClass, id: VfsId, now: TimeVal): (r: seq<Stamping>)
    ensures !Stampable(v, id) ==> r == s
    ensures |s| <= |r| <= |s| + 1
    ensures forall k | 0 <= k < |s| :: r[k].v == s[k].v && r[k].id == s[k].id
  {
    if !Stampable(v, id) then s
    else if IndexOf(s, v, id) >= 0 then Touched(s, v, id, now)
    else s + [Stamping(v, id, now)]
  }

  // Helper: lists with the same keys position by position find (v, id) at the same place.
  lemma IndexOfSameKeys(s: seq<Stamping>, r: seq<Stamping>, v: VfsClass, id: VfsId)
    requires |r| == |s|
    requires forall k | 0 <= k < |s| :: r[k].v == s[k].v && r[k].id == s[k].id
    ensures IndexOf(r, v, id) == IndexOf(s, v, id)
  {
    var i, j := IndexOf(r, v, id), IndexOf(s, v, id);
    if i >= 0 { assert Matches(s[i], v, id); }
    if j >= 0 { assert Matches(r[j], v, id); }
  }

  // Helper: a list none of whose records match sees its (class, id) appended at its length.
  lemma IndexOfAppended(s: seq<Stamping>, st: Stamping, t: seq<Stamping>)
    requires forall k | 0 <= k < |s| :: !Matches(s[k], st.v, st.id)
    ensures IndexOf(s + [st] + t, st.v, st.id) == |s|
  {
    var u := s + [st] + t;
    assert Matches(u[|s|], st.v, st.id);
    assert forall k | 0 <= k < |s| :: u[k] == s[k];
  }

  /**
   * vfs_stamp in a list without duplicates: the record of (v, id) gets time
   * `now` and every other record stays as it was.
   */
  lemma TouchRefreshesOnlyItsRecord(s: seq<Stamping>, v: VfsClass, id: VfsId, now: TimeVal)
    requires UniqueKeys(s)
    ensures forall k | 0 <= k < |s| ::
      Touched(s, v, id, now)[k] == if Matches(s[k], v, id) then s[k].(time := now) else s[k]
  {
  }

  /** vfs_stamp keeps the list's invariant. */
  lemma TouchedWellformed(s: seq<Stamping>, v: VfsClass, id: VfsId, now: TimeVal)
    requires Wellformed(s)
    ensures Wellformed(Touched(s, v, id, now))
  {
    var r := Touched(s, v, id, now);
    forall i, j | 0 <= i < j < |r| ensures !Matches(r[i], r[j].v, r[j].id) {
      assert !Matches(s[i], s[j].v, s[j].id);
    }
    forall k | 0 <= k < |r| ensures Stampable(r[k].v, r[k].id) {
      assert Stampable(s[k].v, s[k].id);
    }
  }

  // Helper: removing a key that no record has leaves the list as it is.
  lemma {:induction false} WithoutNoMatch(s: seq<Stamping>, v: VfsClass, id: VfsId)
    requires forall k | 0 <= k < |s| :: !Matches(s[k], v, id)
    ensures Without(s, v, id) == s
  {
    if s != [] {
      assert !Matches(s[0], v, id);
      WithoutNoMatch(s[1..], v, id);
      assert s == [s[0]] + s[1..];
    }
  }

  /** The reference filter keeps exactly the records of other keys. */
  lemma {:induction false} WithoutMembers(s: seq<Stamping>, v: VfsClass, id: VfsId)
    ensures forall st :: st in Without(s, v, id) <==> st in s && !Matches(st, v, id)
  {
    if s != [] {
      WithoutMembers(s[1..], v, id);
      assert s == [s[0]] + s[1..];
    }
  }

  // Helper: the tail of a list without duplicates has none, and none of its records shares the head's key.
  lemma UniqueKeysTail(s: seq<Stamping>)
    requires UniqueKeys(s) && s != []
    ensures UniqueKeys(s[1..])
    ensures forall k | 0 <= k < |s| - 1 :: !Matches(s[1..][k], s[0].v, s[0].id)
  {
    var t := s[1..];
    forall i, j | 0 <= i < j < |t| ensures !Matches(t[i], t[j].v, t[j].id) {
      assert !Matches(s[i + 1], s[j + 1].v, s[j + 1].id);
    }
    forall k | 0 <= k < |t| ensures !Matches(t[k], s[0].v, s[0].id) {
      assert !Matches(s[0], s[k + 1].v, s[k + 1].id);
    }
  }

  // Helper: unlinking a key the head does not have leaves the head in front.
  lemma RemovedBehindHead(s: seq<Stamping>, v: VfsClass, id: VfsId)
    requires s != [] && !Matches(s[0], v, id)
    ensures Removed(s, v, id) == [s[0]] + Removed(s[1..], v, id)
  {
    var t := s[1..];
    var k := IndexOf(t, v, id);
    if k >= 0 {
      assert IndexOf(s, v, id) == k + 1;
      assert s[..k + 1] + s[k + 2..] == [s[0]] + (t[..k] + t[k + 1..]);
    } else {
      assert IndexOf(s, v, id) == -1;
      assert s == [s[0]] + t;
    }
  }

  /**
   * In a list without duplicates, unlinking the first record of (v, id) is
   * the same as dropping every record of (v, id): the others keep their order.
   */
  lemma {:induction false} RemovedIsWithout(s: seq<Stamping>, v: VfsClass, id: VfsId)
    requires UniqueKeys(s)
    ensures Removed(s, v, id) == Without(s, v, id)
  {
    if s != [] {
      UniqueKeysTail(s);
      if Matches(s[0], v, id) {
        WithoutNoMatch(s[1..], v, id);
      } else {
        RemovedIsWithout(s[1..], v, id);
        RemovedBehindHead(s, v, id);
      }
    }
  }

  /**
   * vfs_rmstamp followed by vfs_stamp on the same (v, id) finds nothing:
   * the removal is complete.
   */
  lemma RemovedLeavesNone(s: seq<Stamping>, v: VfsClass, id: VfsId)
    requires UniqueKeys(s)
    ensures IndexOf(Removed(s, v, id), v, id) < 0
  {
    RemovedIsWithout(s, v, id);
    WithoutMembers(s, v, id);
  }

  /** vfs_rmstamp leaves every record of another key in the list and adds none. */
  lemma RemovedMembers(s: seq<Stamping>, v: VfsClass, id: VfsId)
    requires UniqueKeys(s)
    ensures forall st :: st in Removed(s, v, id) <==> st in s && !Matches(st, v, id)
  {
    RemovedIsWithout(s, v, id);
    WithoutMembers(s, v, id);
  }

  /** vfs_rmstamp keeps the list's invariant. */
  lemma RemovedWellformed(s: seq<Stamping>, v: VfsClass, id: VfsId)
    requires Wellformed(s)
    ensures Wellformed(Removed(s, v, id))
  {
    var i := IndexOf(s, v, id);
    if i >= 0 {
      var r := Removed(s, v, id);
      assert forall a | 0 <= a < |r| :: r[a] == s[if a < i then a else a + 1];
      forall a, b | 0 <= a < b < |r| ensures !Matches(r[a], r[b].v, r[b].id) {
        var a', b' := if a < i then a else a + 1, if b < i then b else b + 1;
        assert !Matches(s[a'], s[b'].v, s[b'].id);
      }
    }
  }

  /** vfs_addstamp keeps the list's invariant: it never adds a second record of a key. */
  lemma AddStampedWellformed(s: seq<Stamping>, v: VfsClass, id: VfsId, now: TimeVal)
    requires Wellformed(s)
    ensures Wellformed(AddStamped(s, v, id, now))
  {
    if Stampable(v, id) {
      if IndexOf(s, v, id) >= 0 {
        TouchedWellformed(s, v, id, now);
      } else {
        var r := s + [Stamping(v, id, now)];
        forall i, j | 0 <= i < j < |r| ensures !Matches(r[i], r[j].v, r[j].id) {
          if j < |s| {
            assert !Matches(s[i], s[j].v, s[j].id);
          }
        }
      }
    }
  }

  /**
   * After vfs_addstamp of a stampable (v, id) the list holds exactly one
   * record of it, whether or not it held one before.
   */
  lemma AddStampedExactlyOne(s: seq<Stamping>, v: VfsClass, id: VfsId, now: TimeVal)
    requires Wellformed(s) && Stampable(v, id)
    ensures Count(AddStamped(s, v, id, now), v, id) == 1
  {
    var r := AddStamped(s, v, id, now);
    assert IndexOf(r, v, id) >= 0 by {
      if IndexOf(s, v, id) >= 0 {
        IndexOfSameKeys(s, r, v, id);
      } else {
        IndexOfAppended(s, Stamping(v, id, now), []);
        assert s + [Stamping(v, id, now)] + [] == r;
      }
    }
    assert UniqueKeys(r) by {
      AddStampedWellformed(s, v, id, now);
    }
    CountIsOneIffFound(r, v, id);
  }

  /**
   * A second vfs_addstamp of the same (v, id) only refreshes the record the
   * first one left: the pair of calls has the effect of the second alone.
   */
  lemma AddStampedIdempotent(s: seq<Stamping>, v: VfsClass, id: VfsId, t1: TimeVal, t2: TimeVal)
    ensures AddStamped(AddStamped(s, v, id, t1), v, id, t2) == AddStamped(s, v, id, t2)
  {
    if Stampable(v, id) {
      var r := AddStamped(s, v, id, t1);
      if IndexOf(s, v, id) >= 0 {
        IndexOfSameKeys(s, r, v, id);
      } else {
        IndexOfAppended(s, Stamping(v, id, t1), []);
        assert s + [Stamping(v, id, t1)] + [] == r;
        assert r[|s| := r[|s|].(time := t2)] == s + [Stamping(v, id, t2)];
      }
    }
  }

  /** vfs_addstamp of (v, id) leaves the records of every other key as they were. */
  lemma AddStampedFrame(s: seq<Stamping>, v: VfsClass, id: VfsId, now: TimeVal)
    ensures forall st | !Matches(st, v, id) :: st in AddStamped(s, v, id, now) <==> st in s
  {
    var r := AddStamped(s, v, id, now);
    var i := IndexOf(s, v, id);
    if Stampable(v, id) && i >= 0 {
      forall st | !Matches(st, v, id) ensures st in r <==> st in s {
        if st in r {
          var k :| 0 <= k < |r| && r[k] == st;
          assert k != i;
        }
        if st in s {
          var k :| 0 <= k < |s| && s[k] == st;
          assert r[k] == st;
        }
      }
    }
  }

  /** After vfs_addstamp, (v, id) is present exactly when it was, or when the guard let it in. */
  lemma AddStampedFinds(s: seq<Stamping>, v: VfsClass, id: VfsId, now: TimeVal)
    ensures IndexOf(AddStamped(s, v, id, now), v, id) >= 0 <==> IndexOf(s, v, id) >= 0 || Stampable(v, id)
  {
    var r := AddStamped(s, v, id, now);
    if Stampable(v, id) {
      if IndexOf(s, v, id) >= 0 {
        IndexOfSameKeys(s, r, v, id);
      } else {
        IndexOfAppended(s, Stamping(v, id, now), []);
        assert s + [Stamping(v, id, now)] + [] == r;
      }
    }
  }
}
