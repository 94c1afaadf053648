/**
 * The file-scope state of gc.c and the operations on it: the stamp list
 * `stamps`, the static latch `locked` of vfs_expire, and the global
 * vfs_timeout. The calls gc.c makes to the classes' free hooks are recorded
 * in the ghost trace `freed`, one (class, id) per call, in call order.
 *
 * The clock, the current directory, the "vfs_timestamp" event and the
 * nothingisopen hook are outside gc.c and come in as parameters.
 */
module VfsGc {
  import opened Timeval
  import opened Stamping
  import opened Registry
  import opened Sweep
  import opened Create

  class Gc {
    var stamps: seq<Stamping>
    var locked: bool
    var vfsTimeout: int
    ghost var freed: seq<(VfsClass, VfsId)>

    /** The list never holds a local class, a NULL id, or two records of one (class, id). */
    ghost predicate Valid()
      reads this
    {
      Wellformed(stamps)
    }

    /** The initial state: no stamps, latch open, vfs_timeout = 60, no hook called. */
    constructor ()
      ensures Valid()
      ensures stamps == [] && !locked && vfsTimeout == 60 && freed == []
    {
      stamps := [];
      locked := false;
      vfsTimeout := 60;
      freed := [];
    }

    /** vfs_stamp: refresh the record of (v, id) to `now`, reporting whether there was one. */
    method Stamp(v: VfsClass, id: VfsId, now: TimeVal) returns (found: bool)
      requires Valid()
      modifies this`stamps
      ensures Valid()
      ensures found <==> IndexOf(old(stamps), v, id) >= 0
      ensures stamps == Touched(old(stamps), v, id, now)
    {
      ghost var s0 := stamps;
      var what := Stamping(v, id, TimeVal(0, 0));
      var i := FindCustom(stamps, what);
      found := false;
      if i >= 0 {
        stamps := stamps[i := stamps[i].(time := now)];
        found := true;
      }
      TouchedWellformed(s0, v, id, now);
    }

    /** vfs_rmstamp: unlink the record of (v, id), if any, without calling a free hook. */
    method RmStamp(v: VfsClass, id: VfsId)
      requires Valid()
      modifies this`stamps
      ensures Valid()
      ensures stamps == Removed(old(stamps), v, id)
    {
      ghost var s0 := stamps;
      var what := Stamping(v, id, TimeVal(0, 0));
      var i := FindCustom(stamps, what);
      if i >= 0 {
        stamps := stamps[..i] + stamps[i + 1..];
      }
      RemovedWellformed(s0, v, id);
    }

    /**
     * vfs_addstamp: for a non-local class and a non-NULL id, refresh the
     * record of (v, id) if there is one and append a new one otherwise.
     */
    method AddStamp(v: VfsClass, id: VfsId, now: TimeVal)
      requires Valid()
      modifies this`stamps
      ensures Valid()
      ensures stamps == AddStamped(old(stamps), v, id, now)
    {
      ghost var s0 := stamps;
      if !v.local && id != NullId {
        var found := Stamp(v, id, now);
        if !found {
          stamps := stamps + [Stamping(v, id, now)];
        }
      }
      AddStampedWellformed(s0, v, id, now);
    }

    /** vfs_stamp_path, given the class and id its path resolves to. */
    method StampPath(v: VfsClass, id: VfsId, now: TimeVal)
      requires Valid()
      modifies this`stamps
      ensures Valid()
      ensures stamps == AddStamped(old(stamps), v, id, now)
    {
      AddStamp(v, id, now);
    }

    /**
     * vfs_stamp_create: with a "vfs_timestamp" listener registered, drop the
     * current directory's stamp; then, when (vclass, id) is a real session
     * other than the current directory's, raise the event and stamp it unless
     * the listener vetoed or the class cannot say that nothing is open.
     */
    method StampCreate(vclass: VfsClass?, id: VfsId, ctx: Context, now: TimeVal)
      requires Valid()
      modifies this`stamps
      ensures Valid()
      ensures stamps == StampCreated(old(stamps), vclass, id, ctx, now)
    {
      if !ctx.listenerPresent {
        return;
      }
      RmStamp(ctx.cwdClass, ctx.cwdId);
      if !(id == NullId || (ctx.cwdClass == vclass && ctx.cwdId == id)) {
        // The event is raised here; the listener's answer is ctx.vetoed.
        if !ctx.vetoed && vclass != null && vclass.hasNothingIsOpen && ctx.nothingIsOpen {
          AddStamp(vclass, id, now);
        }
      }
    }

    /** vfs_release_path, given the class and id its path resolves to. */
    method ReleasePath(v: VfsClass, id: VfsId, ctx: Context, now: TimeVal)
      requires Valid()
      modifies this`stamps
      ensures Valid()
      ensures stamps == StampCreated(old(stamps), v, id, ctx, now)
    {
      StampCreate(v, id, ctx, now);
    }

    /** vfs_stamp_free: call the record's free hook, if its class has one. */
    method StampFree(st: Stamping)
      modifies this`freed
      ensures freed == old(freed) + FreeCall(st)
    {
      if st.v.hasFree {
        freed := freed + [(st.v, st.id)];
      }
    }

    /** vfs_stamp_expire: free and unlink the record if the sweep's limit takes it. */
    method StampExpire(st: Stamping, limit: SweepLimit)
      requires Valid()
      modifies this`stamps, this`freed
      ensures Valid()
      ensures Expires(st, limit) ==> stamps == Removed(old(stamps), st.v, st.id)
      ensures Expires(st, limit) ==> freed == old(freed) + FreeCall(st)
      ensures !Expires(st, limit) ==> stamps == old(stamps) && freed == old(freed)
    {
      if limit.Forced? || TimeoutCmp(st.time, limit.cutoff) {
        StampFree(st);
        RmStamp(st.v, st.id);
      }
    }

    /**
     * One visit of g_slist_foreach: vfs_stamp_expire on the i-th record of
     * the list the sweep started from, `orig`, after the first i are done.
     */
    method ExpireNext(orig: seq<Stamping>, i: nat, limit: SweepLimit, ghost base: seq<(VfsClass, VfsId)>)
      requires Valid() && UniqueKeys(orig) && i < |orig|
      requires stamps == Survivors(orig[..i], limit) + orig[i..]
      requires freed == base + FreeCalls(Reaped(orig[..i], limit))
      modifies this`stamps, this`freed
      ensures Valid()
      ensures stamps == Survivors(orig[..i + 1], limit) + orig[i + 1..]
      ensures freed == base + FreeCalls(Reaped(orig[..i + 1], limit))
    {
      ghost var s0, f0 := stamps, freed;
      StampExpire(orig[i], limit);
      SweepStep(orig, i, limit, s0, stamps);
      SweepStepTrace(orig, i, limit, base, f0, freed);
    }

    /**
     * g_slist_foreach (stamps, vfs_stamp_expire, limit): apply
     * vfs_stamp_expire to each record of the list as the sweep found it.
     */
    method ForEachExpire(limit: SweepLimit)
      requires Valid()
      modifies this`stamps, this`freed
      ensures Valid()
      ensures stamps == Survivors(old(stamps), limit)
      ensures freed == old(freed) + FreeCalls(Reaped(old(stamps), limit))
    {
      var orig := stamps;
      var i := 0;
      SweepStart(orig, limit);
      while i < |orig|
        invariant 0 <= i <= |orig|
        invariant stamps == Survivors(orig[..i], limit) + orig[i..]
        invariant freed == old(freed) + FreeCalls(Reaped(orig[..i], limit))
        invariant Valid()
      {
        ExpireNext(orig, i, limit, old(freed));
        i := i + 1;
      }
      SweepEnd(orig, limit);
    }

    /**
     * vfs_expire: unless a sweep is already running, release every record
     * (forced) or every record touched no later than `now` less vfs_timeout
     * seconds, each through its free hook, keeping the rest in order.
     */
    method Expire(force: bool, now: TimeVal)
      requires Valid()
      modifies this`stamps, this`freed, this`locked
      ensures Valid()
      ensures old(locked) ==> locked && stamps == old(stamps) && freed == old(freed)
      ensures !old(locked) ==> !locked
      ensures !old(locked) ==>
        var limit := if force then Forced else NotAfter(Cutoff(now, vfsTimeout));
        stamps == Survivors(old(stamps), limit)
        && freed == old(freed) + FreeCalls(Reaped(old(stamps), limit))
    {
      if locked {
        return;
      }
      locked := true;
      var limit := if force then Forced else NotAfter(Cutoff(now, vfsTimeout));
      ForEachExpire(limit);
      locked := false;
    }

    /** vfs_timeouts: a coarse hint for the timer, 10 while any stamp exists and 0 otherwise. */
    function Timeouts(): (r: int)
      reads this
      ensures stamps == [] ==> r == 0
      ensures stamps != [] ==> r == 10
    {
      if stamps != [] then 10 else 0
    }

    /** vfs_gc_done: call the free hook of every record, then empty the list. */
    method GcDone()
      modifies this`stamps, this`freed
      ensures Valid()
      ensures stamps == [] && freed == old(freed) + FreeCalls(old(stamps))
    {
      var s := stamps;
      var i := 0;
      while i < |s|
        invariant 0 <= i <= |s|
        invariant stamps == s
        invariant freed == old(freed) + FreeCalls(s[..i])
      {
        assert FreeCalls(s[..i + 1]) == FreeCalls(s[..i]) + FreeCall(s[i]) by {
          assert s[..i + 1] == s[..i] + [s[i]];
          FreeCallsSnoc(s[..i], s[i]);
        }
        StampFree(s[i]);
        i := i + 1;
      }
      assert s[..|s|] == s;
      stamps := [];
    }
  }

  /** A fresh state holding one stamp, of a non-local class with both hooks, taken at t0. */
  method OneStamp(t0: TimeVal) returns (gc: Gc, st: Stamping)
    ensures fresh(gc) && gc.Valid()
    ensures gc.stamps == [st] && st.time == t0
    ensures !gc.locked && gc.vfsTimeout == 60
  {
    gc := new Gc();
    var fs := new VfsClass(false, true, true);
    st := Stamping(fs, Id(1), t0);
    gc.AddStamp(fs, Id(1), t0);
    assert [] + [st] == [st];
  }

  /**
   * A client of the contracts: a session stamped at t0 survives a sweep 30
   * seconds later, so the timer hint stays at 10.
   */
  method EarlySweepKeeps(t0: TimeVal) returns (hint: int)
    ensures hint == 10
  {
    var gc, st := OneStamp(t0);
    var early := NotAfter(TimeVal(t0.sec - 30, t0.usec));
    assert Cutoff(TimeVal(t0.sec + 30, t0.usec), 60) == early.cutoff;
    gc.Expire(false, TimeVal(t0.sec + 30, t0.usec));
    assert Survivors([st], early) == [st] by {
      assert !Expires(st, early);
      SurvivorsOfOne(st, early);
    }
    hint := gc.Timeouts();
  }

  /**
   * A client of the contracts: a session stamped at t0 is released by a
   * sweep 61 seconds later, and the timer hint drops to 0.
   */
  method LateSweepReleases(t0: TimeVal) returns (hint: int)
    ensures hint == 0
  {
    var gc, st := OneStamp(t0);
    var late := NotAfter(TimeVal(t0.sec + 1, t0.usec));
    assert Cutoff(TimeVal(t0.sec + 61, t0.usec), 60) == late.cutoff;
    gc.Expire(false, TimeVal(t0.sec + 61, t0.usec));
    assert Survivors([st], late) == [] by {
      assert Expires(st, late);
      SurvivorsOfOne(st, late);
    }
    hint := gc.Timeouts();
  }
}
