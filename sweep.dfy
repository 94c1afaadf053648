/**
 * What a sweep of vfs_expire does to the stamp list: which records
 * vfs_stamp_expire releases, which survive, and the calls made to the
 * classes' free hooks through vfs_stamp_free.
 */
module Sweep {
  import opened Timeval
  import opened Stamping
  import opened Registry

  /**
   * What vfs_expire hands to vfs_stamp_expire: NULL for a forced sweep,
   * otherwise the cutoff time.
   */
  datatype SweepLimit = Forced | NotAfter(cutoff: TimeVal)

  /** The test of vfs_stamp_expire: forced, or touched no later than the cutoff. */
  predicate Expires(st: Stamping, limit: SweepLimit)
  {
    match limit
    case Forced => true
    case NotAfter(cutoff) => TimeoutCmp(st.time, cutoff)
  }

  /** The records of s whose expiry test comes out as `expired`, in their order. */
  function Select(s: seq<Stamping>, limit: SweepLimit, expired: bool): seq<Stamping>
  {
    if s == [] then []
    else
      Select(s[..|s| - 1], limit, expired)
      + (if Expires(s[|s| - 1], limit) == expired then [s[|s| - 1]] else [])
  }

  /** The records a sweep keeps. */
  function Survivors(s: seq<Stamping>, limit: SweepLimit): seq<Stamping>
  {
    Select(s, limit, false)
  }

  /** The records a sweep releases. */
  function Reaped(s: seq<Stamping>, limit: SweepLimit): seq<Stamping>
  {
    Select(s, limit, true)
  }

  /** vfs_stamp_free on one record: a call to the free hook, if its class has one. */
  function FreeCall(st: Stamping): seq<(VfsClass, VfsId)>
  {
    if st.v.hasFree then [(st.v, st.id)] else []
  }

  /** vfs_stamp_free on every record of s in order. */
  function FreeCalls(s: seq<Stamping>): seq<(VfsClass, VfsId)>
  {
    if s == [] then [] else FreeCalls(s[..|s| - 1]) + FreeCall(s[|s| - 1])
  }

  /** No value occurs twice. */
  predicate NoDuplicates<T(==)>(s: seq<T>)
  {
    forall i, j | 0 <= i < j < |s| :: s[i] != s[j]
  }

  // Helper: a prefix or suffix of a wellformed list is wellformed.
  lemma SliceWellformed(s: seq<Stamping>, i: nat, j: nat)
    requires Wellformed(s) && i <= j <= |s|
    ensures Wellformed(s[i..j])
  {
    var t := s[i..j];
    forall a, b | 0 <= a < b < |t| ensures !Matches(t[a], t[b].v, t[b].id) {
      assert !Matches(s[i + a], s[i + b].v, s[i + b].id);
    }
  }

  // Helper: two wellformed lists with no key in common concatenate to a wellformed list.
  lemma ConcatWellformed(a: seq<Stamping>, b: seq<Stamping>)
    requires Wellformed(a) && Wellformed(b)
    requires forall p, q | 0 <= p < |a| && 0 <= q < |b| :: !Matches(a[p], b[q].v, b[q].id)
    ensures Wellformed(a + b)
  {
    var r := a + b;
    forall i, j | 0 <= i < j < |r| ensures !Matches(r[i], r[j].v, r[j].id) {
      if j < |a| {
        assert !Matches(a[i], a[j].v, a[j].id);
      } else if i < |a| {
        assert !Matches(a[i], b[j - |a|].v, b[j - |a|].id);
      } else {
        assert !Matches(b[i - |a|], b[j - |a|].v, b[j - |a|].id);
      }
    }
  }

  // Helper: selecting from a list with one more record at its end.
  lemma SelectSnoc(p: seq<Stamping>, x: Stamping, limit: SweepLimit, expired: bool)
    ensures Select(p + [x], limit, expired)
         == Select(p, limit, expired) + (if Expires(x, limit) == expired then [x] else [])
  {
    assert (p + [x])[..|p|] == p;
  }

  // Helper: the free-hook calls for a list with one more record at its end.
  lemma FreeCallsSnoc(p: seq<Stamping>, x: Stamping)
    ensures FreeCalls(p + [x]) == FreeCalls(p) + FreeCall(x)
  {
    assert (p + [x])[..|p|] == p;
  }

  /** A sweep's selection holds exactly the records of s with the given expiry outcome. */
  lemma {:induction false} SelectMembers(s: seq<Stamping>, limit: SweepLimit, expired: bool)
    ensures forall st :: st in Select(s, limit, expired) <==> st in s && Expires(st, limit) == expired
  {
    if s != [] {
      var p := s[..|s| - 1];
      SelectMembers(p, limit, expired);
      assert s == p + [s[|s| - 1]];
    }
  }

  // Helper: the k-th selected record is some record of s.
  lemma {:induction false} SelectedAt(s: seq<Stamping>, limit: SweepLimit, expired: bool, k: nat) returns (m: nat)
    requires k < |Select(s, limit, expired)|
    ensures m < |s| && s[m] == Select(s, limit, expired)[k]
  {
    var p := s[..|s| - 1];
    if k < |Select(p, limit, expired)| {
      m := SelectedAt(p, limit, expired, k);
    } else {
      m := |s| - 1;
    }
  }

  // Helper: the k-th free-hook call is for some record of s whose class has a free hook.
  lemma {:induction false} FreeCallAt(s: seq<Stamping>, k: nat) returns (m: nat)
    requires k < |FreeCalls(s)|
    ensures m < |s| && s[m].v.hasFree && FreeCalls(s)[k] == (s[m].v, s[m].id)
  {
    var p := s[..|s| - 1];
    if k < |FreeCalls(p)| {
      m := FreeCallAt(p, k);
    } else {
      m := |s| - 1;
    }
  }

  /** A selection of a wellformed list is wellformed. */
  lemma {:induction false} SelectWellformed(s: seq<Stamping>, limit: SweepLimit, expired: bool)
    requires Wellformed(s)
    ensures Wellformed(Select(s, limit, expired))
  {
    if s != [] {
      var p, x := s[..|s| - 1], s[|s| - 1];
      SliceWellformed(s, 0, |s| - 1);
      SelectWellformed(p, limit, expired);
      if Expires(x, limit) == expired {
        var a := Select(p, limit, expired);
        SelectMembers(p, limit, expired);
        forall k | 0 <= k < |a| ensures !Matches(a[k], x.v, x.id) {
          var m := SelectedAt(p, limit, expired, k);
          assert !Matches(s[m], s[|s| - 1].v, s[|s| - 1].id);
        }
        ConcatWellformed(a, [x]);
      }
    }
  }

  /**
   * A sweep partitions the list: every record is either kept or released,
   * and none is both or lost.
   */
  lemma {:induction false} SweepPartition(s: seq<Stamping>, limit: SweepLimit)
    ensures multiset(Survivors(s, limit)) + multiset(Reaped(s, limit)) == multiset(s)
  {
    if s != [] {
      var p := s[..|s| - 1];
      SweepPartition(p, limit);
      assert s == p + [s[|s| - 1]];
    }
  }

  /** A forced sweep keeps nothing and releases every record, in list order. */
  lemma {:induction false} ForcedSweepTakesAll(s: seq<Stamping>)
    ensures Survivors(s, Forced) == []
    ensures Reaped(s, Forced) == s
  {
    if s != [] {
      var p := s[..|s| - 1];
      ForcedSweepTakesAll(p);
      assert s == p + [s[|s| - 1]];
    }
  }

  /** Sweeping again with the same cutoff releases nothing more. */
  lemma {:induction false} SweepIdempotent(s: seq<Stamping>, limit: SweepLimit)
    ensures Survivors(Survivors(s, limit), limit) == Survivors(s, limit)
  {
    if s != [] {
      var p, x := s[..|s| - 1], s[|s| - 1];
      SweepIdempotent(p, limit);
      var a := Survivors(p, limit);
      if !Expires(x, limit) {
        var r := a + [x];
        assert Survivors(s, limit) == r;
        assert r[..|r| - 1] == a && r[|r| - 1] == x;
        assert Survivors(r, limit) == Survivors(a, limit) + [x];
      } else {
        assert Survivors(s, limit) == a;
      }
    }
  }

  /** The free hook is called for a key exactly when some record of it has a class with a free hook. */
  lemma {:induction false} FreeCallsMembers(s: seq<Stamping>)
    ensures forall c :: c in FreeCalls(s) <==> exists st :: st in s && st.v.hasFree && c == (st.v, st.id)
  {
    if s != [] {
      var p := s[..|s| - 1];
      FreeCallsMembers(p);
      assert s == p + [s[|s| - 1]];
    }
  }

  /** In a list without duplicate keys, no (class, id) is handed to a free hook twice. */
  lemma {:induction false} FreeCallsOnce(s: seq<Stamping>)
    requires UniqueKeys(s)
    ensures NoDuplicates(FreeCalls(s))
  {
    if s != [] {
      var p, x := s[..|s| - 1], s[|s| - 1];
      assert UniqueKeys(p);
      FreeCallsOnce(p);
      FreeCallsMembers(p);
      if x.v.hasFree {
        var f := FreeCalls(p);
        forall k | 0 <= k < |f| ensures f[k] != (x.v, x.id) {
          var m := FreeCallAt(p, k);
          assert !Matches(s[m], s[|s| - 1].v, s[|s| - 1].id);
        }
      }
    }
  }

  /**
   * The calls a sweep makes to free hooks: one for every released record
   * whose class has a free hook, none for any other, and none twice.
   */
  lemma SweepFreesEachReleasedOnce(s: seq<Stamping>, limit: SweepLimit)
    requires UniqueKeys(s)
    ensures NoDuplicates(FreeCalls(Reaped(s, limit)))
    ensures forall st | st in s ::
      (st.v, st.id) in FreeCalls(Reaped(s, limit)) <==> Expires(st, limit) && st.v.hasFree
  {
    var r := Reaped(s, limit);
    SelectMembers(s, limit, true);
    FreeCallsMembers(r);
    assert UniqueKeys(r) by {
      forall i, j | 0 <= i < j < |r| ensures !Matches(r[i], r[j].v, r[j].id) {
        SelectUniqueKeys(s, limit, true);
      }
    }
    FreeCallsOnce(r);
    forall st | st in s && (st.v, st.id) in FreeCalls(r)
      ensures Expires(st, limit) && st.v.hasFree
    {
      var st' :| st' in r && st'.v.hasFree && (st.v, st.id) == (st'.v, st'.id);
      var i :| 0 <= i < |s| && s[i] == st;
      var j :| 0 <= j < |s| && s[j] == st';
      SameKeySamePlace(s, i, j);
    }
  }

  // Helper: in a list without duplicate keys, two places holding one key are one place.
  lemma SameKeySamePlace(s: seq<Stamping>, i: nat, j: nat)
    requires UniqueKeys(s) && i < |s| && j < |s|
    requires Matches(s[i], s[j].v, s[j].id)
    ensures i == j
  {
  }

  // Helper: a selection keeps keys unique.
  lemma {:induction false} SelectUniqueKeys(s: seq<Stamping>, limit: SweepLimit, expired: bool)
    requires UniqueKeys(s)
    ensures UniqueKeys(Select(s, limit, expired))
  {
    if s != [] {
      var p, x := s[..|s| - 1], s[|s| - 1];
      assert UniqueKeys(p);
      SelectUniqueKeys(p, limit, expired);
      if Expires(x, limit) == expired {
        var a := Select(p, limit, expired);
        SelectMembers(p, limit, expired);
        var r := a + [x];
        forall i, j | 0 <= i < j < |r| ensures !Matches(r[i], r[j].v, r[j].id) {
          if j == |a| {
            var m := SelectedAt(p, limit, expired, i);
            assert !Matches(s[m], s[|s| - 1].v, s[|s| - 1].id);
          } else {
            assert !Matches(a[i], a[j].v, a[j].id);
          }
        }
      }
    }
  }

  /**
   * Midway through a sweep of a wellformed list (the first i records
   * visited) the list is still wellformed.
   */
  lemma SweepStateWellformed(orig: seq<Stamping>, i: nat, limit: SweepLimit)
    requires Wellformed(orig) && i <= |orig|
    ensures Wellformed(Survivors(orig[..i], limit) + orig[i..])
  {
    var p, b := orig[..i], orig[i..];
    SliceWellformed(orig, 0, i);
    SliceWellformed(orig, i, |orig|);
    var a := Survivors(p, limit);
    SelectWellformed(p, limit, false);
    SelectMembers(p, limit, false);
    forall x, y | 0 <= x < |a| && 0 <= y < |b| ensures !Matches(a[x], b[y].v, b[y].id) {
      var m := SelectedAt(p, limit, false, x);
      assert !Matches(orig[m], orig[i + y].v, orig[i + y].id);
    }
    ConcatWellformed(a, b);
  }

  /** A sweep of a one-record list keeps the record exactly when it does not expire. */
  lemma SurvivorsOfOne(st: Stamping, limit: SweepLimit)
    ensures Survivors([st], limit) == if Expires(st, limit) then [] else [st]
  {
    SelectSnoc([], st, limit, false);
    assert [] + [st] == [st];
  }

  /** Before the sweep visits any record, the list is the original and nothing is freed. */
  lemma SweepStart(orig: seq<Stamping>, limit: SweepLimit)
    ensures Survivors(orig[..0], limit) + orig[0..] == orig
    ensures FreeCalls(Reaped(orig[..0], limit)) == []
  {
    assert orig[..0] == [];
  }

  /** After the sweep visited every record, the list is the survivors of the original. */
  lemma SweepEnd(orig: seq<Stamping>, limit: SweepLimit)
    ensures Survivors(orig[..|orig|], limit) + orig[|orig|..] == Survivors(orig, limit)
    ensures Reaped(orig[..|orig|], limit) == Reaped(orig, limit)
  {
    assert orig[..|orig|] == orig;
  }

  // Helper: no record kept so far shares the key of the record visited next.
  lemma SurvivorsMissNext(orig: seq<Stamping>, i: nat, limit: SweepLimit)
    requires UniqueKeys(orig) && i < |orig|
    ensures forall k | 0 <= k < |Survivors(orig[..i], limit)| ::
      !Matches(Survivors(orig[..i], limit)[k], orig[i].v, orig[i].id)
  {
    var p, a := orig[..i], Survivors(orig[..i], limit);
    forall k | 0 <= k < |a| ensures !Matches(a[k], orig[i].v, orig[i].id) {
      var m := SelectedAt(p, limit, false, k);
      assert !Matches(orig[m], orig[i].v, orig[i].id);
    }
  }

  // Helper: unlinking x finds it right after a prefix that lacks its key.
  lemma RemovedAfterPrefix(a: seq<Stamping>, x: Stamping, b: seq<Stamping>)
    requires forall k | 0 <= k < |a| :: !Matches(a[k], x.v, x.id)
    ensures Removed(a + [x] + b, x.v, x.id) == a + b
  {
    IndexOfAppended(a, x, b);
    var u := a + [x] + b;
    assert u[..|a|] + u[|a| + 1..] == a + b;
  }

  /**
   * One step of the sweep on the list: vfs_stamp_expire on the i-th
   * original record moves the list from "first i records swept" to
   * "first i + 1 records swept".
   */
  lemma SweepStep(orig: seq<Stamping>, i: nat, limit: SweepLimit, before: seq<Stamping>, after: seq<Stamping>)
    requires UniqueKeys(orig) && i < |orig|
    requires before == Survivors(orig[..i], limit) + orig[i..]
    requires Expires(orig[i], limit) ==> after == Removed(before, orig[i].v, orig[i].id)
    requires !Expires(orig[i], limit) ==> after == before
    ensures after == Survivors(orig[..i + 1], limit) + orig[i + 1..]
  {
    var p, x, b := orig[..i], orig[i], orig[i + 1..];
    var a := Survivors(p, limit);
    assert Survivors(orig[..i + 1], limit) == a + (if Expires(x, limit) then [] else [x]) by {
      assert orig[..i + 1] == p + [x];
      SelectSnoc(p, x, limit, false);
    }
    assert before == a + [x] + b by {
      assert orig[i..] == [x] + b;
    }
    if Expires(x, limit) {
      assert after == a + b by {
        SurvivorsMissNext(orig, i, limit);
        RemovedAfterPrefix(a, x, b);
      }
      assert a + [] == a;
    }
  }

  /**
   * One step of the sweep on the trace: visiting the i-th original record
   * adds its free-hook call when, and only when, it expires.
   */
  lemma SweepStepTrace(orig: seq<Stamping>, i: nat, limit: SweepLimit, base: seq<(VfsClass, VfsId)>,
                       freedBefore: seq<(VfsClass, VfsId)>, freedAfter: seq<(VfsClass, VfsId)>)
    requires i < |orig|
    requires freedBefore == base + FreeCalls(Reaped(orig[..i], limit))
    requires freedAfter == freedBefore + (if Expires(orig[i], limit) then FreeCall(orig[i]) else [])
    ensures freedAfter == base + FreeCalls(Reaped(orig[..i + 1], limit))
  {
    var p, x := orig[..i], orig[i];
    var r := Reaped(p, limit);
    assert Reaped(orig[..i + 1], limit) == r + (if Expires(x, limit) then [x] else []) by {
      assert orig[..i + 1] == p + [x];
      SelectSnoc(p, x, limit, true);
    }
    if Expires(x, limit) {
      assert FreeCalls(r + [x]) == FreeCalls(r) + FreeCall(x) by {
        FreeCallsSnoc(r, x);
      }
      assert freedAfter == base + (FreeCalls(r) + FreeCall(x));
    } else {
      assert r + [] == r;
      assert freedAfter == freedBefore + [] == freedBefore;
    }
  }
}
